/**
 * internal/policy/matchers.go: pattern matching of principals, resources
 * and roles, and the two halves of a "type:identifier" principal string.
 *
 * `glob(pattern, name)` stands for Go's `filepath.Match(pattern, name)`
 * returning a match and no error; a malformed pattern therefore reads as a
 * non-match, and nothing else about the glob syntax is assumed.
 */
module PolicyMatchers {
  import opened Util
  import Impersonation

  type Glob = (string, string) -> bool

  /**
   * MatchesPrincipalPattern, MatchesResourcePattern and MatchesRolePattern,
   * which have the same body: "*" matches everything, then a glob match, then
   * plain equality.
   */
  function Matches(glob: Glob, s: string, pattern: string): (r: bool)
    ensures pattern == "*" ==> r
    ensures glob(pattern, s) ==> r
    ensures s == pattern ==> r
    ensures r && pattern != "*" && !glob(pattern, s) ==> s == pattern
  {
    if pattern == "*" then true
    else if glob(pattern, s) then true
    else s == pattern
  }

  /** IsRoleIn: some listed role equals the role or matches it as a pattern. */
  function IsRoleIn(glob: Glob, role: string, roles: seq<string>): (r: bool)
    ensures r <==> exists i :: 0 <= i < |roles| && Matches(glob, role, roles[i])
    ensures |roles| == 0 ==> !r
  {
    if |roles| == 0 then false
    else if role == roles[0] || Matches(glob, role, roles[0]) then true
    else
      assert forall i :: 1 <= i < |roles| ==> roles[i] == roles[1..][i - 1];
      IsRoleIn(glob, role, roles[1..])
  }

  /** IsPrincipalIn: some listed pattern matches the principal. */
  function IsPrincipalIn(glob: Glob, principal: string, patterns: seq<string>): (r: bool)
    ensures r <==> exists i :: 0 <= i < |patterns| && Matches(glob, principal, patterns[i])
    ensures |patterns| == 0 ==> !r
  {
    if |patterns| == 0 then false
    else if Matches(glob, principal, patterns[0]) then true
    else
      assert forall i :: 1 <= i < |patterns| ==> patterns[i] == patterns[1..][i - 1];
      IsPrincipalIn(glob, principal, patterns[1..])
  }

  /** A listed role is always in its list, and "*" in the list admits every role and principal. */
  lemma ListedIsIn(glob: Glob, s: string, list: seq<string>)
    requires s in list || "*" in list
    ensures IsRoleIn(glob, s, list) && IsPrincipalIn(glob, s, list)
  {
    var i :| 0 <= i < |list| && (list[i] == s || list[i] == "*");
    assert Matches(glob, s, list[i]);
  }

  /** ExtractPrincipalEmail: the text after the first ':', or the whole string when there is none. */
  function ExtractPrincipalEmail(principal: string): (r: string)
    ensures ':' !in principal ==> r == principal
    ensures ':' in principal ==>
      |r| < |principal| && HasSuffix(principal, r) && principal[|principal| - |r| - 1] == ':' &&
      ':' !in principal[..|principal| - |r| - 1]
  {
    var parts := SplitN2(principal, ':');
    if |parts| == 2 then
      assert principal == parts[0] + [':'] + parts[1];
      assert principal[..|parts[0]|] == parts[0];
      parts[1]
    else principal
  }

  /** GetPrincipalType: the text before the first ':', or "unknown" when there is none. */
  function GetPrincipalType(principal: string): (r: string)
    ensures ':' !in principal ==> r == "unknown"
    ensures ':' in principal ==> ':' !in r && HasPrefix(principal, r + ":")
  {
    var parts := SplitN2(principal, ':');
    if |parts| == 2 then
      assert principal[..|parts[0]| + 1] == parts[0] + ":" by {
        assert principal == (parts[0] + ":") + parts[1];
      }
      parts[0]
    else "unknown"
  }

  /** A principal with a ':' is its type, a ':' and its identifier. */
  lemma TypeAndEmailRebuild(principal: string)
    requires ':' in principal
    ensures GetPrincipalType(principal) + ":" + ExtractPrincipalEmail(principal) == principal
  {
    var parts := SplitN2(principal, ':');
    assert principal == parts[0] + [':'] + parts[1];
  }

  /** Building a principal from a type without ':' and any identifier, and taking it apart again, gives both back. */
  lemma TypeAndEmailSplit(t: string, email: string)
    requires ':' !in t
    ensures GetPrincipalType(t + ":" + email) == t
    ensures ExtractPrincipalEmail(t + ":" + email) == email
  {
    SplitN2Concat(t, ':', email);
    assert t + ":" + email == t + [':'] + email;
  }

  /** The policy package's GetPrincipalType and the analyzer's agree on every principal. */
  lemma PrincipalTypeAgrees(principal: string)
    ensures GetPrincipalType(principal) == Impersonation.GetPrincipalType(principal)
  {
  }
}
