/**
 * internal/policy/parser.go after the YAML has been decoded: the structural
 * checks on a policy configuration, the one-payload-block check, and the
 * order in which LoadPolicies applies them.
 */
module PolicyParser {
  import opened Util
  import opened PolicyModels

  datatype Result<T> = Ok(value: T) | Err(msg: string)

  // ---------------------------------------------------------------------
  // validatePolicyConfig

  /** A policy passes the checks: a name, a type, and a severity that is empty or one of the three tags. */
  predicate PolicyAcceptable(p: Policy) {
    p.name != "" && p.ptype != "" && (p.severity == "" || IsSeverity(p.severity))
  }

  /**
   * The error for the policy at index i, if any. An empty severity is
   * defaulted to "error" before the severity check, so it always passes.
   */
  function PolicyError(i: nat, p: Policy): (r: Option<string>)
    ensures r.None? <==> PolicyAcceptable(p)
  {
    if p.name == "" then Some("policy " + IntToString(i) + ": name is required")
    else if p.ptype == "" then Some("policy " + p.name + ": type is required")
    else
      var severity := if p.severity == "" then SeverityError else p.severity;
      if severity != SeverityError && severity != SeverityWarning && severity != SeverityInfo then
        Some("policy " + p.name + ": invalid severity '" + severity + "'")
      else None
  }

  /** The loop over the policies from index `from` on, returning the first error. */
  function FirstPolicyError(policies: seq<Policy>, from: nat): (r: Option<string>)
    requires from <= |policies|
    ensures r.None? <==> forall j :: from <= j < |policies| ==> PolicyAcceptable(policies[j])
    ensures r.Some? ==>
      exists j :: from <= j < |policies| && r == PolicyError(j, policies[j]) &&
        forall k :: from <= k < j ==> PolicyAcceptable(policies[k])
    decreases |policies| - from
  {
    if from == |policies| then None
    else
      var e := PolicyError(from, policies[from]);
      if e.Some? then e else FirstPolicyError(policies, from + 1)
  }

  /**
   * validatePolicyConfig: a cloud provider, at least one policy, and every
   * policy acceptable; otherwise the first failing check's message.
   */
  function ValidatePolicyConfig(config: PolicyConfig): (r: Option<string>)
    ensures config.cloudProvider == "" ==> r == Some("cloud_provider is required")
    ensures config.cloudProvider != "" && |config.policies| == 0 ==> r == Some("at least one policy is required")
    ensures r.None? <==>
      config.cloudProvider != "" && |config.policies| > 0 &&
      forall j :: 0 <= j < |config.policies| ==> PolicyAcceptable(config.policies[j])
    ensures r.Some? && config.cloudProvider != "" && |config.policies| > 0 ==>
      exists j :: 0 <= j < |config.policies| && r == PolicyError(j, config.policies[j]) &&
        forall k :: 0 <= k < j ==> PolicyAcceptable(config.policies[k])
  {
    if config.cloudProvider == "" then Some("cloud_provider is required")
    else if |config.policies| == 0 then Some("at least one policy is required")
    else FirstPolicyError(config.policies, 0)
  }

  // ---------------------------------------------------------------------
  // normalizePolicies

  datatype PayloadKind =
    | RoleRestrictionBlock | PersonaBlock | ResourceAccessBlock
    | SeparationOfDutyBlock | ImpersonationEscalationBlock | EffectiveAccessBlock

  /** The policy carries the payload block of kind k. */
  predicate Carries(p: Policy, k: PayloadKind) {
    match k
    case RoleRestrictionBlock => p.roleRestriction.Some?
    case PersonaBlock => p.persona.Some?
    case ResourceAccessBlock => p.resourceAccess.Some?
    case SeparationOfDutyBlock => p.separationOfDuty.Some?
    case ImpersonationEscalationBlock => p.impersonationEscalation.Some?
    case EffectiveAccessBlock => p.effectiveAccess.Some?
  }

  function With(s: seq<PayloadKind>, present: bool, k: PayloadKind): seq<PayloadKind> {
    s + (if present then [k] else [])
  }

  /** The payload blocks a policy carries, in declaration order. */
  function PayloadBlocks(p: Policy): seq<PayloadKind> {
    var s1 := With([], p.roleRestriction.Some?, RoleRestrictionBlock);
    var s2 := With(s1, p.persona.Some?, PersonaBlock);
    var s3 := With(s2, p.resourceAccess.Some?, ResourceAccessBlock);
    var s4 := With(s3, p.separationOfDuty.Some?, SeparationOfDutyBlock);
    var s5 := With(s4, p.impersonationEscalation.Some?, ImpersonationEscalationBlock);
    With(s5, p.effectiveAccess.Some?, EffectiveAccessBlock)
  }

  lemma WithStep(s: seq<PayloadKind>, present: bool, k: PayloadKind)
    requires NoDup(s) && k !in s
    ensures NoDup(With(s, present, k))
    ensures forall x :: x in With(s, present, k) <==> x in s || (present && x == k)
  {
    if present { NoDupSnoc(s, k); }
  }

  /** PayloadBlocks lists each block the policy carries, and only those. */
  lemma PayloadBlocksCarried(p: Policy, k: PayloadKind)
    ensures k in PayloadBlocks(p) <==> Carries(p, k)
  {
    var s1 := With([], p.roleRestriction.Some?, RoleRestrictionBlock);
    var s2 := With(s1, p.persona.Some?, PersonaBlock);
    var s3 := With(s2, p.resourceAccess.Some?, ResourceAccessBlock);
    var s4 := With(s3, p.separationOfDuty.Some?, SeparationOfDutyBlock);
    var s5 := With(s4, p.impersonationEscalation.Some?, ImpersonationEscalationBlock);
    var s6 := With(s5, p.effectiveAccess.Some?, EffectiveAccessBlock);
    assert PayloadBlocks(p) == s6;
    assert k in s6 <==>
      (k == RoleRestrictionBlock && p.roleRestriction.Some?) || (k == PersonaBlock && p.persona.Some?) ||
      (k == ResourceAccessBlock && p.resourceAccess.Some?) || (k == SeparationOfDutyBlock && p.separationOfDuty.Some?) ||
      (k == ImpersonationEscalationBlock && p.impersonationEscalation.Some?) ||
      (k == EffectiveAccessBlock && p.effectiveAccess.Some?);
  }

  /** PayloadBlocks lists no block twice. */
  lemma PayloadBlocksNoDup(p: Policy)
    ensures NoDup(PayloadBlocks(p))
  {
    var s1 := With([], p.roleRestriction.Some?, RoleRestrictionBlock);
    WithStep([], p.roleRestriction.Some?, RoleRestrictionBlock);
    var s2 := With(s1, p.persona.Some?, PersonaBlock);
    WithStep(s1, p.persona.Some?, PersonaBlock);
    var s3 := With(s2, p.resourceAccess.Some?, ResourceAccessBlock);
    WithStep(s2, p.resourceAccess.Some?, ResourceAccessBlock);
    var s4 := With(s3, p.separationOfDuty.Some?, SeparationOfDutyBlock);
    WithStep(s3, p.separationOfDuty.Some?, SeparationOfDutyBlock);
    var s5 := With(s4, p.impersonationEscalation.Some?, ImpersonationEscalationBlock);
    WithStep(s4, p.impersonationEscalation.Some?, ImpersonationEscalationBlock);
    WithStep(s5, p.effectiveAccess.Some?, EffectiveAccessBlock);
  }

  /** One `if block != nil { typeFieldCount++ }`, with the blocks counted so far. */
  method CountBlock(typeFieldCount0: nat, ghost seen0: seq<PayloadKind>, present: bool, ghost k: PayloadKind)
    returns (typeFieldCount: nat, ghost seen: seq<PayloadKind>)
    requires typeFieldCount0 == |seen0|
    ensures seen == With(seen0, present, k) && typeFieldCount == |seen|
  {
    typeFieldCount, seen := typeFieldCount0, seen0;
    if present {
      typeFieldCount, seen := typeFieldCount + 1, seen + [k];
    }
  }

  /** The six increments of typeFieldCount in normalizePolicies: the number of payload blocks. */
  method CountPayloads(p: Policy) returns (typeFieldCount: nat)
    ensures typeFieldCount == |PayloadBlocks(p)|
  {
    ghost var seen: seq<PayloadKind> := [];
    typeFieldCount := 0;
    typeFieldCount, seen := CountBlock(typeFieldCount, seen, p.roleRestriction.Some?, RoleRestrictionBlock);
    typeFieldCount, seen := CountBlock(typeFieldCount, seen, p.persona.Some?, PersonaBlock);
    typeFieldCount, seen := CountBlock(typeFieldCount, seen, p.resourceAccess.Some?, ResourceAccessBlock);
    typeFieldCount, seen := CountBlock(typeFieldCount, seen, p.separationOfDuty.Some?, SeparationOfDutyBlock);
    typeFieldCount, seen := CountBlock(typeFieldCount, seen, p.impersonationEscalation.Some?, ImpersonationEscalationBlock);
    typeFieldCount, seen := CountBlock(typeFieldCount, seen, p.effectiveAccess.Some?, EffectiveAccessBlock);
  }

  /** The normalisation error for one policy: no payload block, or more than one. */
  function PayloadError(p: Policy): Option<string> {
    var n := |PayloadBlocks(p)|;
    if n == 0 then Some("policy " + p.name + ": no type-specific configuration found")
    else if n > 1 then Some("policy " + p.name + ": multiple type-specific configurations found")
    else None
  }

  /**
   * normalizePolicies: succeeds iff every policy carries exactly one payload
   * block, otherwise reports the first policy that does not. The config is
   * not changed.
   */
  method NormalizePolicies(config: PolicyConfig) returns (err: Option<string>)
    ensures err.None? <==> forall j :: 0 <= j < |config.policies| ==> |PayloadBlocks(config.policies[j])| == 1
    ensures err.Some? ==>
      exists j :: 0 <= j < |config.policies| && err == PayloadError(config.policies[j]) &&
        forall k :: 0 <= k < j ==> |PayloadBlocks(config.policies[k])| == 1
  {
    var i := 0;
    while i < |config.policies|
      invariant 0 <= i <= |config.policies|
      invariant forall k :: 0 <= k < i ==> |PayloadBlocks(config.policies[k])| == 1
    {
      var policy := config.policies[i];
      var typeFieldCount := CountPayloads(policy);
      if typeFieldCount == 0 {
        return Some("policy " + policy.name + ": no type-specific configuration found");
      }
      if typeFieldCount > 1 {
        return Some("policy " + policy.name + ": multiple type-specific configurations found");
      }
      i := i + 1;
    }
    return None;
  }

  /** A policy whose only block is not the one its type names still passes normalisation. */
  lemma BlockNotCheckedAgainstType(p: Policy)
    requires p.ptype == PolicyTypePersona && p.persona.None? && p.roleRestriction.Some?
    requires p.resourceAccess.None? && p.separationOfDuty.None? && p.impersonationEscalation.None? && p.effectiveAccess.None?
    ensures |PayloadBlocks(p)| == 1 && PayloadError(p).None?
  {
    assert PayloadBlocks(p) == [RoleRestrictionBlock];
  }

  // ---------------------------------------------------------------------
  // LoadPolicies

  /**
   * LoadPolicies once the file is read and decoded: validation first, then
   * normalisation; the first check to fail decides the error, and on success
   * the decoded config is returned as it is (an empty severity stays empty).
   */
  method LoadPolicies(config: PolicyConfig) returns (result: Result<PolicyConfig>)
    ensures ValidatePolicyConfig(config).Some? ==>
      result == Err("invalid policy configuration: " + ValidatePolicyConfig(config).value)
    ensures result.Ok? <==>
      ValidatePolicyConfig(config).None? &&
      forall j :: 0 <= j < |config.policies| ==> |PayloadBlocks(config.policies[j])| == 1
    ensures ValidatePolicyConfig(config).None? && result.Err? ==>
      exists j :: 0 <= j < |config.policies| && PayloadError(config.policies[j]).Some? &&
        result == Err("failed to normalize policies: " + PayloadError(config.policies[j]).value)
    ensures result.Ok? ==> result.value == config
  {
    var err := ValidatePolicyConfig(config);
    if err.Some? {
      return Err("invalid policy configuration: " + err.value);
    }
    var nerr := NormalizePolicies(config);
    if nerr.Some? {
      return Err("failed to normalize policies: " + nerr.value);
    }
    return Ok(config);
  }

  /** An empty severity passes validation, and nothing writes the default back. */
  lemma EmptySeverityAccepted(config: PolicyConfig, j: nat)
    requires j < |config.policies| && config.policies[j].severity == ""
    requires config.policies[j].name != "" && config.policies[j].ptype != ""
    ensures PolicyError(j, config.policies[j]).None?
  {
  }
}
