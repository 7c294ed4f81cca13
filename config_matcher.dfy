/**
 * internal/config/matcher.go: exclusion rules over (resource ID, resource
 * type, role). `regexMatch(pattern, s)` stands for Go's
 * `regexp.MatchString(pattern, s)` returning true with no error; a pattern
 * that fails to compile therefore reads as a non-match.
 */
module ConfigMatcher {

  /** Each field is a regular expression; an empty field matches anything. */
  datatype ExclusionRule = ExclusionRule(resource: string, resourceType: string, role: string)

  /** matchRule: every non-empty field's expression matches its value. */
  predicate MatchRule(regexMatch: (string, string) -> bool, rule: ExclusionRule,
                      resourceID: string, resourceType: string, role: string)
    ensures rule.resource != "" && !regexMatch(rule.resource, resourceID) ==> !MatchRule(regexMatch, rule, resourceID, resourceType, role)
    ensures rule.resourceType != "" && !regexMatch(rule.resourceType, resourceType) ==> !MatchRule(regexMatch, rule, resourceID, resourceType, role)
    ensures rule.role != "" && !regexMatch(rule.role, role) ==> !MatchRule(regexMatch, rule, resourceID, resourceType, role)
    ensures ((rule.resource == "" || regexMatch(rule.resource, resourceID)) &&
             (rule.resourceType == "" || regexMatch(rule.resourceType, resourceType)) &&
             (rule.role == "" || regexMatch(rule.role, role)))
            ==> MatchRule(regexMatch, rule, resourceID, resourceType, role)
  {
    (rule.resource == "" || regexMatch(rule.resource, resourceID)) &&
    (rule.resourceType == "" || regexMatch(rule.resourceType, resourceType)) &&
    (rule.role == "" || regexMatch(rule.role, role))
  }

  /** IsExcluded: the search over the rules, stopping at the first rule that matches. */
  function IsExcluded(regexMatch: (string, string) -> bool, exclusions: seq<ExclusionRule>,
                      resourceID: string, resourceType: string, role: string): (r: bool)
    ensures r <==> exists k :: 0 <= k < |exclusions| && MatchRule(regexMatch, exclusions[k], resourceID, resourceType, role)
  {
    if |exclusions| == 0 then false
    else if MatchRule(regexMatch, exclusions[0], resourceID, resourceType, role) then true
    else
      assert forall k :: 1 <= k < |exclusions| ==> exclusions[k] == exclusions[1..][k - 1];
      IsExcluded(regexMatch, exclusions[1..], resourceID, resourceType, role)
  }

  /** A rule with every field empty excludes every binding, whatever the regular-expression engine does. */
  lemma EmptyRuleMatchesEverything(regexMatch: (string, string) -> bool, exclusions: seq<ExclusionRule>,
                                   resourceID: string, resourceType: string, role: string)
    requires ExclusionRule("", "", "") in exclusions
    ensures IsExcluded(regexMatch, exclusions, resourceID, resourceType, role)
  {
    var k :| 0 <= k < |exclusions| && exclusions[k] == ExclusionRule("", "", "");
    assert MatchRule(regexMatch, exclusions[k], resourceID, resourceType, role);
  }

  /** Adding rules never un-excludes a binding. */
  lemma {:induction false} ExclusionMonotone(regexMatch: (string, string) -> bool, exclusions: seq<ExclusionRule>,
                                             more: seq<ExclusionRule>, resourceID: string, resourceType: string, role: string)
    requires IsExcluded(regexMatch, exclusions, resourceID, resourceType, role)
    ensures IsExcluded(regexMatch, exclusions + more, resourceID, resourceType, role)
    ensures IsExcluded(regexMatch, more + exclusions, resourceID, resourceType, role)
  {
    var k :| 0 <= k < |exclusions| && MatchRule(regexMatch, exclusions[k], resourceID, resourceType, role);
    assert (exclusions + more)[k] == exclusions[k];
    assert (more + exclusions)[|more| + k] == exclusions[k];
  }
}
