/**
 * The rule tables of internal/definitions/hierarchy.go: the role hierarchy
 * table, the list of impersonation-capable roles and the (source type,
 * target type) impersonation rules, with the lookups the analyzer uses and
 * the cache that LoadRules replaces.
 */
module Definitions {
  import opened Util

  /**
   * What a role grants when bound above resource level. The shown revision
   * declares only the first two fields; the analyzer also reads a display
   * name and a target level, so the table carries all four.
   */
  datatype RoleHierarchy = RoleHierarchy(
    resourceTypes: seq<string>,
    accessLevel: string,
    displayName: string,
    targetLevel: string)

  datatype ImpersonationRule = ImpersonationRule(sourceType: string, targetType: string)

  /** The decoded rules file. */
  datatype RulesConfig = RulesConfig(
    hierarchicalRoles: map<string, RoleHierarchy>,
    impersonationRoles: seq<string>,
    impersonationRules: seq<ImpersonationRule>)

  /** What reading and decoding the rules file produced (file I/O and YAML are not modelled). */
  datatype RulesSource =
    | ReadFailed(readError: string)
    | ParseFailed(parseError: string)
    | Decoded(config: RulesConfig)

  /** The role table lookup: the role's resource types, none for an unknown role. */
  function ResourceTypesForRole(table: map<string, RoleHierarchy>, role: string): (r: seq<string>)
    ensures role in table ==> r == table[role].resourceTypes
    ensures role !in table ==> r == []
  {
    if role in table then table[role].resourceTypes else []
  }

  /** The linear search over the impersonation-role list. */
  function IsImpersonationRole(roles: seq<string>, role: string): (r: bool)
    ensures r <==> role in roles
  {
    if |roles| == 0 then false
    else if roles[0] == role then true
    else IsImpersonationRole(roles[1..], role)
  }

  /** The lookup table GetCanImpersonateFunc builds: source type -> allowed target types. */
  ghost predicate AllowedMapOf(allowed: map<string, set<string>>, rules: seq<ImpersonationRule>) {
    forall s, t :: (s in allowed && t in allowed[s]) <==> ImpersonationRule(s, t) in rules
  }

  /**
   * Builds the source -> targets table from the rules and returns the predicate
   * over it. The predicate closes over the table, so it is a snapshot of the
   * rules at the time of the call.
   */
  method CanImpersonateFunc(rules: seq<ImpersonationRule>) returns (f: (string, string) -> bool)
    ensures forall s, t :: f(s, t) <==> ImpersonationRule(s, t) in rules
  {
    var allowed: map<string, set<string>> := map[];
    var i := 0;
    while i < |rules|
      invariant 0 <= i <= |rules|
      invariant AllowedMapOf(allowed, rules[..i])
    {
      var rule := rules[i];
      if rule.sourceType !in allowed {
        allowed := allowed[rule.sourceType := {}];
      }
      allowed := allowed[rule.sourceType := allowed[rule.sourceType] + {rule.targetType}];
      assert rules[..i + 1] == rules[..i] + [rule];
      i := i + 1;
    }
    assert rules[..i] == rules;
    var table := allowed;
    f := (s: string, t: string) => s in table && t in table[s];
  }

  lemma NoRulesNoImpersonation(f: (string, string) -> bool)
    requires forall s, t :: f(s, t) <==> ImpersonationRule(s, t) in []
    ensures forall s, t :: !f(s, t)
  {
  }

  /** The three package-level caches LoadRules assigns together. */
  class RuleCache {
    var hierarchicalRoles: map<string, RoleHierarchy>
    var impersonationRoles: seq<string>
    var impersonationRules: seq<ImpersonationRule>

    /** Before any load every cache is nil, which behaves as empty. */
    constructor ()
      ensures hierarchicalRoles == map[] && impersonationRoles == [] && impersonationRules == []
    {
      hierarchicalRoles := map[];
      impersonationRoles := [];
      impersonationRules := [];
    }

    /**
     * LoadRules: on a read or decode failure the caches are untouched and the
     * wrapped error is returned; on success all three are replaced.
     */
    method LoadRules(source: RulesSource) returns (err: Option<string>)
      modifies this
      ensures source.ReadFailed? ==> err == Some("failed to read custom rules file: " + source.readError)
      ensures source.ParseFailed? ==> err == Some("failed to parse rules: " + source.parseError)
      ensures source.Decoded? <==> err.None?
      ensures source.Decoded? ==>
        && hierarchicalRoles == source.config.hierarchicalRoles
        && impersonationRoles == source.config.impersonationRoles
        && impersonationRules == source.config.impersonationRules
      ensures !source.Decoded? ==>
        && hierarchicalRoles == old(hierarchicalRoles)
        && impersonationRoles == old(impersonationRoles)
        && impersonationRules == old(impersonationRules)
    {
      match source
      case ReadFailed(e) =>
        err := Some("failed to read custom rules file: " + e);
      case ParseFailed(e) =>
        err := Some("failed to parse rules: " + e);
      case Decoded(config) =>
        hierarchicalRoles := config.hierarchicalRoles;
        impersonationRoles := config.impersonationRoles;
        impersonationRules := config.impersonationRules;
        err := None;
    }

    /** GetResourceTypesForRole over the current cache. */
    function GetResourceTypesForRole(role: string): (r: seq<string>)
      reads this
      ensures role in hierarchicalRoles ==> r == hierarchicalRoles[role].resourceTypes
      ensures role !in hierarchicalRoles ==> r == []
    {
      ResourceTypesForRole(hierarchicalRoles, role)
    }

    /** IsImpersonationRole over the current cache. */
    predicate HoldsImpersonationRole(role: string)
      reads this
      ensures HoldsImpersonationRole(role) <==> role in impersonationRoles
    {
      IsImpersonationRole(impersonationRoles, role)
    }

    /** GetCanImpersonateFunc over the current cache. */
    method GetCanImpersonateFunc() returns (f: (string, string) -> bool)
      ensures forall s, t :: f(s, t) <==> ImpersonationRule(s, t) in impersonationRules
    {
      f := CanImpersonateFunc(impersonationRules);
    }
  }

  /**
   * A predicate obtained before a reload keeps answering from the rules that
   * were loaded when it was created.
   */
  method SnapshotSurvivesReload(cache: RuleCache, source: RulesSource) returns (f: (string, string) -> bool)
    modifies cache
    ensures forall s, t :: f(s, t) <==> ImpersonationRule(s, t) in old(cache.impersonationRules)
  {
    f := cache.GetCanImpersonateFunc();
    var _ := cache.LoadRules(source);
  }
}
