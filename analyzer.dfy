/**
 * internal/analyzer/analyzer.go: folding the binding stream into one
 * PrincipalData record per member, holding the roles per resource and, for
 * project-level bindings, the resource types reachable under the project.
 *
 * The Go code mutates nested maps through pointers; every principal and
 * every (principal, resource) pair gets its own record, so nothing is
 * shared and the maps are modelled as values.
 */
module Analyzer {
  import opened Util
  import opened ParserTypes
  import opened Definitions

  /** Roles held on one resource, and the Terraform address that granted each role. */
  datatype ResourceMetadata = ResourceMetadata(rtype: string, roles: set<string>, terraformAddrs: map<string, string>)

  /** Direct access per resource ID and hierarchical access per project ID. */
  datatype PrincipalData = PrincipalData(
    resourceAccess: map<string, ResourceMetadata>,
    hierarchicalAccess: map<string, set<string>>)

  const EmptyPrincipal := PrincipalData(map[], map[])

  /** One member of one binding: the unit Analyze processes. */
  datatype Grant = Grant(binding: IAMBinding, member: string)

  predicate IsProjectIam(resourceType: string) {
    resourceType == "google_project_iam_member" || resourceType == "google_project_iam_binding"
  }

  /**
   * processDirectAccess: the resource record is created with the binding's
   * type on first sight; the role is added; a non-empty address is recorded
   * for the role.
   */
  function ProcessDirectAccess(data: PrincipalData, b: IAMBinding): (d: PrincipalData)
    ensures d.hierarchicalAccess == data.hierarchicalAccess
    ensures d.resourceAccess.Keys == data.resourceAccess.Keys + {b.resourceID}
    ensures d.resourceAccess[b.resourceID].rtype ==
      (if b.resourceID in data.resourceAccess then data.resourceAccess[b.resourceID].rtype else b.resourceType)
    ensures d.resourceAccess[b.resourceID].roles ==
      (if b.resourceID in data.resourceAccess then data.resourceAccess[b.resourceID].roles else {}) + {b.role}
    ensures var before := if b.resourceID in data.resourceAccess then data.resourceAccess[b.resourceID].terraformAddrs else map[];
      d.resourceAccess[b.resourceID].terraformAddrs == if b.terraformAddr != "" then before[b.role := b.terraformAddr] else before
  {
    var meta := if b.resourceID in data.resourceAccess then data.resourceAccess[b.resourceID]
                else ResourceMetadata(b.resourceType, {}, map[]);
    var addrs := if b.terraformAddr != "" then meta.terraformAddrs[b.role := b.terraformAddr] else meta.terraformAddrs;
    data.(resourceAccess := data.resourceAccess[b.resourceID := ResourceMetadata(meta.rtype, meta.roles + {b.role}, addrs)])
  }

  /** processDirectAccess leaves every other resource record as it was. */
  lemma DirectAccessFrame(data: PrincipalData, b: IAMBinding, r: string)
    requires r in data.resourceAccess && r != b.resourceID
    ensures ProcessDirectAccess(data, b).resourceAccess[r] == data.resourceAccess[r]
  {
  }

  /** The elements of a list of resource types. */
  function TypeSet(types: seq<string>): set<string> {
    set t | t in types
  }

  lemma TypeSetAppend(types: seq<string>, t: string)
    ensures TypeSet(types + [t]) == TypeSet(types) + {t}
  {
    assert forall x :: x in types + [t] <==> x in types || x == t;
  }

  /**
   * The value processHierarchicalAccess leaves behind: direct access is
   * untouched, and only a project IAM binding whose role has resource types
   * adds those types under the project ID.
   */
  function HierarchicalStep(data: PrincipalData, b: IAMBinding, table: map<string, RoleHierarchy>): (d: PrincipalData)
    ensures d.resourceAccess == data.resourceAccess
    ensures !(IsProjectIam(b.resourceType) && |ResourceTypesForRole(table, b.role)| > 0) ==> d == data
    ensures IsProjectIam(b.resourceType) && |ResourceTypesForRole(table, b.role)| > 0 ==>
      b.resourceID in d.hierarchicalAccess &&
      d.hierarchicalAccess[b.resourceID] ==
        (if b.resourceID in data.hierarchicalAccess then data.hierarchicalAccess[b.resourceID] else {})
        + TypeSet(ResourceTypesForRole(table, b.role))
  {
    var types := ResourceTypesForRole(table, b.role);
    if IsProjectIam(b.resourceType) && |types| > 0 then
      var cur := if b.resourceID in data.hierarchicalAccess then data.hierarchicalAccess[b.resourceID] else {};
      data.(hierarchicalAccess := data.hierarchicalAccess[b.resourceID := cur + TypeSet(types)])
    else data
  }

  /** The hierarchical step leaves every other project entry as it was. */
  lemma HierarchicalFrame(data: PrincipalData, b: IAMBinding, table: map<string, RoleHierarchy>, p: string)
    requires p != b.resourceID
    ensures var d := HierarchicalStep(data, b, table);
      (p in d.hierarchicalAccess <==> p in data.hierarchicalAccess) &&
      (p in data.hierarchicalAccess ==> d.hierarchicalAccess[p] == data.hierarchicalAccess[p])
  {
  }

  /** One iteration of the type loop: create the project's set if missing, then add the type. */
  function AddType(d: PrincipalData, projectID: string, t: string): PrincipalData {
    var cur := if projectID in d.hierarchicalAccess then d.hierarchicalAccess[projectID] else {};
    d.(hierarchicalAccess := d.hierarchicalAccess[projectID := cur + {t}])
  }

  /** The record after the first i types of the role have been added under the project. */
  ghost function TypesAdded(data: PrincipalData, projectID: string, types: seq<string>, i: nat): PrincipalData
    requires i <= |types|
  {
    var cur := if projectID in data.hierarchicalAccess then data.hierarchicalAccess[projectID] else {};
    if i == 0 then data else data.(hierarchicalAccess := data.hierarchicalAccess[projectID := cur + TypeSet(types[..i])])
  }

  lemma TypesAddedStep(data: PrincipalData, projectID: string, types: seq<string>, i: nat)
    requires i < |types|
    ensures AddType(TypesAdded(data, projectID, types, i), projectID, types[i]) == TypesAdded(data, projectID, types, i + 1)
  {
    var h := data.hierarchicalAccess;
    var cur := if projectID in h then h[projectID] else {};
    assert types[..i + 1] == types[..i] + [types[i]];
    TypeSetAppend(types[..i], types[i]);
    if i == 0 {
      assert TypeSet(types[..0]) == {};
      assert cur + TypeSet(types[..1]) == cur + {types[0]};
    } else {
      assert cur + TypeSet(types[..i]) + {types[i]} == cur + TypeSet(types[..i + 1]);
      assert h[projectID := cur + TypeSet(types[..i])][projectID := cur + TypeSet(types[..i + 1])]
        == h[projectID := cur + TypeSet(types[..i + 1])];
    }
  }

  /**
   * processHierarchicalAccess: for a project IAM binding, each resource type
   * of the role is added under the project ID; the project entry is created
   * only when there is at least one type.
   */
  method ProcessHierarchicalAccess(data: PrincipalData, b: IAMBinding, table: map<string, RoleHierarchy>)
    returns (d: PrincipalData)
    ensures d == HierarchicalStep(data, b, table)
  {
    d := data;
    if IsProjectIam(b.resourceType) {
      var projectID := b.resourceID;
      var resourceTypes := ResourceTypesForRole(table, b.role);
      var i := 0;
      while i < |resourceTypes|
        invariant 0 <= i <= |resourceTypes|
        invariant d == TypesAdded(data, projectID, resourceTypes, i)
      {
        ghost var d0 := d;
        if projectID !in d.hierarchicalAccess {
          d := d.(hierarchicalAccess := d.hierarchicalAccess[projectID := {}]);
        }
        d := d.(hierarchicalAccess := d.hierarchicalAccess[projectID := d.hierarchicalAccess[projectID] + {resourceTypes[i]}]);
        assert d == AddType(d0, projectID, resourceTypes[i]);
        TypesAddedStep(data, projectID, resourceTypes, i);
        i := i + 1;
      }
      assert resourceTypes[..i] == resourceTypes;
    }
  }

  function Lookup(results: map<string, PrincipalData>, m: string): PrincipalData {
    if m in results then results[m] else EmptyPrincipal
  }

  /** One member of one binding processed against the results so far. */
  function ApplyGrant(results: map<string, PrincipalData>, g: Grant, table: map<string, RoleHierarchy>): map<string, PrincipalData> {
    results[g.member := HierarchicalStep(ProcessDirectAccess(Lookup(results, g.member), g.binding), g.binding, table)]
  }

  /** Every (binding, member) pair, bindings in order and members in order within each. */
  function Grants(bs: seq<IAMBinding>): (gs: seq<Grant>) {
    if |bs| == 0 then []
    else Grants(bs[..|bs| - 1]) + MemberGrants(bs[|bs| - 1])
  }

  function MemberGrants(b: IAMBinding): (gs: seq<Grant>)
    ensures |gs| == |b.members|
    ensures forall j :: 0 <= j < |gs| ==> gs[j] == Grant(b, b.members[j])
  {
    seq(|b.members|, j requires 0 <= j < |b.members| => Grant(b, b.members[j]))
  }

  /** The map Analyze returns: every grant applied in order. */
  function Fold(gs: seq<Grant>, table: map<string, RoleHierarchy>): map<string, PrincipalData> {
    if |gs| == 0 then map[]
    else ApplyGrant(Fold(gs[..|gs| - 1], table), gs[|gs| - 1], table)
  }

  lemma FoldSnoc(gs: seq<Grant>, g: Grant, table: map<string, RoleHierarchy>)
    ensures Fold(gs + [g], table) == ApplyGrant(Fold(gs, table), g, table)
  {
    assert (gs + [g])[..|gs|] == gs;
  }

  /** Analyze: every member of every binding, in order, processed for direct and hierarchical access. */
  method Analyze(bindings: seq<IAMBinding>, table: map<string, RoleHierarchy>)
    returns (results: map<string, PrincipalData>)
    ensures results == Fold(Grants(bindings), table)
    ensures forall m :: m in results <==> exists i :: 0 <= i < |bindings| && m in bindings[i].members
    ensures forall i, j :: 0 <= i < |bindings| && 0 <= j < |bindings[i].members| ==>
      var m := bindings[i].members[j];
      m in results && bindings[i].resourceID in results[m].resourceAccess &&
      bindings[i].role in results[m].resourceAccess[bindings[i].resourceID].roles
  {
    results := map[];
    var i := 0;
    while i < |bindings|
      invariant 0 <= i <= |bindings|
      invariant results == Fold(Grants(bindings[..i]), table)
    {
      assert bindings[..i + 1][..i] == bindings[..i];
      assert Grants(bindings[..i + 1]) == Grants(bindings[..i]) + MemberGrants(bindings[i]);
      results := AnalyzeBinding(results, bindings[i], table, Grants(bindings[..i]));
      i := i + 1;
    }
    assert bindings[..i] == bindings;
    AnalyzeKeys(bindings, table);
    AnalyzeRolesRecorded(bindings, table);
  }

  /** The inner loop of Analyze: each member of one binding, in order. */
  method AnalyzeBinding(results0: map<string, PrincipalData>, binding: IAMBinding, table: map<string, RoleHierarchy>,
                        ghost done: seq<Grant>)
    returns (results: map<string, PrincipalData>)
    requires results0 == Fold(done, table)
    ensures results == Fold(done + MemberGrants(binding), table)
  {
    results := results0;
    assert done + MemberGrants(binding)[..0] == done;
    for j := 0 to |binding.members|
      invariant results == Fold(done + MemberGrants(binding)[..j], table)
    {
      results := ApplyMember(results, binding, j, table, done);
    }
    assert MemberGrants(binding)[..|binding.members|] == MemberGrants(binding);
  }

  lemma MemberPrefix(done: seq<Grant>, b: IAMBinding, j: nat)
    requires j < |b.members|
    ensures done + MemberGrants(b)[..j + 1] == (done + MemberGrants(b)[..j]) + [Grant(b, b.members[j])]
  {
    PrefixSnoc(done, MemberGrants(b), j);
  }

  /** The body of the inner loop of Analyze: create the member's record if needed, then process the binding. */
  method ApplyMember(results0: map<string, PrincipalData>, binding: IAMBinding, j: int, table: map<string, RoleHierarchy>,
                     ghost done: seq<Grant>)
    returns (results: map<string, PrincipalData>)
    requires 0 <= j < |binding.members|
    requires results0 == Fold(done + MemberGrants(binding)[..j], table)
    ensures results == ApplyGrant(results0, Grant(binding, binding.members[j]), table)
    ensures results == Fold(done + MemberGrants(binding)[..j + 1], table)
  {
    var member := binding.members[j];
    MemberPrefix(done, binding, j);
    FoldSnoc(done + MemberGrants(binding)[..j], Grant(binding, member), table);
    results := results0;
    if member !in results {
      results := results[member := EmptyPrincipal];
    }
    var d := ProcessDirectAccess(results[member], binding);
    d := ProcessHierarchicalAccess(d, binding, table);
    results := results[member := d];
  }

  /** The principals of the fold over all grants are exactly the members of the bindings. */
  lemma AnalyzeKeys(bindings: seq<IAMBinding>, table: map<string, RoleHierarchy>)
    ensures forall m :: m in Fold(Grants(bindings), table) <==> exists i :: 0 <= i < |bindings| && m in bindings[i].members
  {
    var gs := Grants(bindings);
    GrantsOfBindings(bindings);
    forall m
      ensures m in Fold(gs, table) <==> exists i :: 0 <= i < |bindings| && m in bindings[i].members
    {
      FoldKeys(gs, table, m);
      if m in Fold(gs, table) {
        var k :| 0 <= k < |gs| && gs[k].member == m;
        assert FromBinding(bindings, gs[k]);
      }
      if exists i :: 0 <= i < |bindings| && m in bindings[i].members {
        var i :| 0 <= i < |bindings| && m in bindings[i].members;
        assert FromBinding(bindings, Grant(bindings[i], m));
        var k :| 0 <= k < |gs| && gs[k] == Grant(bindings[i], m);
      }
    }
  }

  /** Every member of every binding holds the binding's role on the binding's resource. */
  lemma AnalyzeRolesRecorded(bindings: seq<IAMBinding>, table: map<string, RoleHierarchy>)
    ensures var results := Fold(Grants(bindings), table);
      forall i, j :: 0 <= i < |bindings| && 0 <= j < |bindings[i].members| ==>
        var m := bindings[i].members[j];
        m in results && bindings[i].resourceID in results[m].resourceAccess &&
        bindings[i].role in results[m].resourceAccess[bindings[i].resourceID].roles
  {
    var gs := Grants(bindings);
    GrantsOfBindings(bindings);
    forall i, j | 0 <= i < |bindings| && 0 <= j < |bindings[i].members|
      ensures var m := bindings[i].members[j];
        m in Fold(gs, table) && bindings[i].resourceID in Fold(gs, table)[m].resourceAccess &&
        bindings[i].role in Fold(gs, table)[m].resourceAccess[bindings[i].resourceID].roles
    {
      assert FromBinding(bindings, Grant(bindings[i], bindings[i].members[j]));
      var k :| 0 <= k < |gs| && gs[k] == Grant(bindings[i], bindings[i].members[j]);
      GrantRecorded(gs, table, k);
    }
  }

  // ---------------------------------------------------------------------
  // Grants and bindings: every grant is a member of a binding and back.

  /** g pairs some binding of bs with one of that binding's members. */
  ghost predicate FromBinding(bs: seq<IAMBinding>, g: Grant) {
    exists i :: 0 <= i < |bs| && g.binding == bs[i] && g.member in bs[i].members
  }

  lemma {:induction false} GrantsOfBindings(bs: seq<IAMBinding>)
    ensures forall g :: g in Grants(bs) <==> FromBinding(bs, g)
  {
    if |bs| > 0 {
      var init := bs[..|bs| - 1];
      var last := bs[|bs| - 1];
      GrantsOfBindings(init);
      assert Grants(bs) == Grants(init) + MemberGrants(last);
      forall g
        ensures g in Grants(bs) <==> FromBinding(bs, g)
      {
        if g in MemberGrants(last) {
          var j :| 0 <= j < |last.members| && MemberGrants(last)[j] == g;
          assert g.binding == bs[|bs| - 1] && g.member in bs[|bs| - 1].members;
        }
        if FromBinding(init, g) {
          var i :| 0 <= i < |init| && g.binding == init[i] && g.member in init[i].members;
          assert g.binding == bs[i];
        }
        if FromBinding(bs, g) {
          var i :| 0 <= i < |bs| && g.binding == bs[i] && g.member in bs[i].members;
          if i < |init| {
            assert FromBinding(init, g) by { assert init[i] == bs[i]; }
          } else {
            var j :| 0 <= j < |last.members| && last.members[j] == g.member;
            assert MemberGrants(last)[j] == g;
          }
        }
      }
    }
  }

  // ---------------------------------------------------------------------
  // What the fold records, stated over the grant sequence.

  /** Member m's direct access in a result map (none when m is absent). */
  function RA(results: map<string, PrincipalData>, m: string): map<string, ResourceMetadata> {
    Lookup(results, m).resourceAccess
  }

  /** Member m's hierarchical access in a result map (none when m is absent). */
  function HA(results: map<string, PrincipalData>, m: string): map<string, set<string>> {
    Lookup(results, m).hierarchicalAccess
  }

  /** What one grant does to the direct-access record of (m, r). */
  lemma ApplyGrantDirect(results: map<string, PrincipalData>, g: Grant, table: map<string, RoleHierarchy>, m: string, r: string)
    ensures var before := RA(results, m);
      var after := RA(ApplyGrant(results, g, table), m);
      if g.member == m && g.binding.resourceID == r then
        r in after &&
        after[r].rtype == (if r in before then before[r].rtype else g.binding.resourceType) &&
        after[r].roles == (if r in before then before[r].roles else {}) + {g.binding.role} &&
        var addrs := if r in before then before[r].terraformAddrs else map[];
        after[r].terraformAddrs == if g.binding.terraformAddr != "" then addrs[g.binding.role := g.binding.terraformAddr] else addrs
      else
        (r in after <==> r in before) && (r in before ==> after[r] == before[r])
  {
  }

  /** What one grant does to the hierarchical-access record of (m, p). */
  lemma ApplyGrantHierarchical(results: map<string, PrincipalData>, g: Grant, table: map<string, RoleHierarchy>, m: string, p: string)
    ensures var before := HA(results, m);
      var after := HA(ApplyGrant(results, g, table), m);
      var b := g.binding;
      if g.member == m && b.resourceID == p && IsProjectIam(b.resourceType) && |ResourceTypesForRole(table, b.role)| > 0 then
        p in after && after[p] == (if p in before then before[p] else {}) + TypeSet(ResourceTypesForRole(table, b.role))
      else
        (p in after <==> p in before) && (p in before ==> after[p] == before[p])
  {
  }

  /** Grant k is for member m on resource r. */
  ghost predicate On(gs: seq<Grant>, k: int, m: string, r: string) {
    0 <= k < |gs| && gs[k].member == m && gs[k].binding.resourceID == r
  }

  /** Only members of some binding are keys of the result. */
  lemma {:induction false} FoldKeys(gs: seq<Grant>, table: map<string, RoleHierarchy>, m: string)
    ensures m in Fold(gs, table) <==> exists k :: 0 <= k < |gs| && gs[k].member == m
  {
    if |gs| > 0 {
      FoldKeys(gs[..|gs| - 1], table, m);
      if exists k :: 0 <= k < |gs| - 1 && gs[k].member == m {
        var k :| 0 <= k < |gs| - 1 && gs[k].member == m;
        assert gs[..|gs| - 1][k] == gs[k];
      }
    }
  }

  /** The record of the grant's member on the grant's resource holds the grant's role. */
  lemma {:induction false} GrantRecorded(gs: seq<Grant>, table: map<string, RoleHierarchy>, k: int)
    requires 0 <= k < |gs|
    ensures gs[k].member in Fold(gs, table)
    ensures gs[k].binding.resourceID in Fold(gs, table)[gs[k].member].resourceAccess
    ensures gs[k].binding.role in Fold(gs, table)[gs[k].member].resourceAccess[gs[k].binding.resourceID].roles
  {
    var m := gs[k].member;
    var r := gs[k].binding.resourceID;
    FoldKeys(gs, table, m);
    RolesOnResource(gs, table, m, r);
    RolesOfMembership(gs, m, r, gs[k].binding.role);
    assert On(gs, k, m, r);
  }

  /** The roles of the grants for member m on resource r. */
  ghost function RolesOf(gs: seq<Grant>, m: string, r: string): set<string> {
    if |gs| == 0 then {}
    else
      var g := gs[|gs| - 1];
      RolesOf(gs[..|gs| - 1], m, r) + (if g.member == m && g.binding.resourceID == r then {g.binding.role} else {})
  }

  lemma {:induction false} RolesOfMembership(gs: seq<Grant>, m: string, r: string, role: string)
    ensures role in RolesOf(gs, m, r) <==> exists k :: On(gs, k, m, r) && gs[k].binding.role == role
  {
    if |gs| > 0 {
      var init := gs[..|gs| - 1];
      RolesOfMembership(init, m, r, role);
      assert forall k :: 0 <= k < |init| ==> (On(gs, k, m, r) <==> On(init, k, m, r)) && gs[k] == init[k];
    }
  }

  /** The direct-access record for (m, r) after the grants, computed on that pair alone. */
  ghost function RecordOf(gs: seq<Grant>, m: string, r: string): Option<ResourceMetadata> {
    if |gs| == 0 then None
    else
      var prev := RecordOf(gs[..|gs| - 1], m, r);
      var b := gs[|gs| - 1].binding;
      if On(gs, |gs| - 1, m, r) then
        var meta := if prev.Some? then prev.value else ResourceMetadata(b.resourceType, {}, map[]);
        Some(ResourceMetadata(meta.rtype, meta.roles + {b.role},
          if b.terraformAddr != "" then meta.terraformAddrs[b.role := b.terraformAddr] else meta.terraformAddrs))
      else prev
  }

  /** The fold's record for (m, r) is the one computed on that pair alone. */
  lemma {:induction false} FoldRecord(gs: seq<Grant>, table: map<string, RoleHierarchy>, m: string, r: string)
    ensures r in RA(Fold(gs, table), m) <==> RecordOf(gs, m, r).Some?
    ensures r in RA(Fold(gs, table), m) ==> RA(Fold(gs, table), m)[r] == RecordOf(gs, m, r).value
  {
    if |gs| > 0 {
      var init := gs[..|gs| - 1];
      FoldRecord(init, table, m, r);
      ApplyGrantDirect(Fold(init, table), gs[|gs| - 1], table, m, r);
    }
  }

  lemma {:induction false} RecordExists(gs: seq<Grant>, m: string, r: string)
    ensures RecordOf(gs, m, r).Some? <==> exists k :: On(gs, k, m, r)
  {
    if |gs| > 0 {
      var init := gs[..|gs| - 1];
      RecordExists(init, m, r);
      if exists k :: On(gs, k, m, r) {
        var k :| On(gs, k, m, r);
        if k < |init| { assert On(init, k, m, r); }
      }
      if exists k :: On(init, k, m, r) {
        var k :| On(init, k, m, r);
        assert On(gs, k, m, r);
      }
    }
  }

  lemma {:induction false} RecordRoles(gs: seq<Grant>, m: string, r: string)
    ensures RolesOf(gs, m, r) == (if RecordOf(gs, m, r).Some? then RecordOf(gs, m, r).value.roles else {})
  {
    if |gs| > 0 {
      RecordRoles(gs[..|gs| - 1], m, r);
    }
  }

  /** The record for (m, r) exists iff some grant is for m on r, and its roles are those grants' roles. */
  lemma RolesOnResource(gs: seq<Grant>, table: map<string, RoleHierarchy>, m: string, r: string)
    ensures r in RA(Fold(gs, table), m) <==> exists k :: On(gs, k, m, r)
    ensures r in RA(Fold(gs, table), m) ==> RA(Fold(gs, table), m)[r].roles == RolesOf(gs, m, r)
  {
    FoldRecord(gs, table, m, r);
    RecordExists(gs, m, r);
    RecordRoles(gs, m, r);
  }

  /** Grant k is the first grant for m on r. */
  ghost predicate FirstOn(gs: seq<Grant>, k: int, m: string, r: string) {
    On(gs, k, m, r) && forall j :: 0 <= j < k ==> !On(gs, j, m, r)
  }

  lemma {:induction false} RecordType(gs: seq<Grant>, m: string, r: string)
    requires RecordOf(gs, m, r).Some?
    ensures exists k :: FirstOn(gs, k, m, r) && RecordOf(gs, m, r).value.rtype == gs[k].binding.resourceType
  {
    var init := gs[..|gs| - 1];
    var n := |gs| - 1;
    if RecordOf(init, m, r).Some? {
      RecordType(init, m, r);
      var k :| FirstOn(init, k, m, r) && RecordOf(init, m, r).value.rtype == init[k].binding.resourceType;
      assert forall j :: 0 <= j <= k ==> (On(gs, j, m, r) <==> On(init, j, m, r));
      assert FirstOn(gs, k, m, r) && gs[k] == init[k];
    } else {
      RecordExists(init, m, r);
      assert forall j :: 0 <= j < n ==> !On(gs, j, m, r) by {
        forall j | 0 <= j < n ensures !On(gs, j, m, r) { assert !On(init, j, m, r); }
      }
      assert FirstOn(gs, n, m, r);
    }
  }

  /** A resource's type is the type of the first grant that created the record. */
  lemma TypeFromFirstGrant(gs: seq<Grant>, table: map<string, RoleHierarchy>, m: string, r: string)
    requires r in RA(Fold(gs, table), m)
    ensures exists k :: FirstOn(gs, k, m, r) && RA(Fold(gs, table), m)[r].rtype == gs[k].binding.resourceType
  {
    FoldRecord(gs, table, m, r);
    RecordType(gs, m, r);
  }

  /** Grant k is for member m, resource r and role role, with a non-empty address. */
  ghost predicate AddrOn(gs: seq<Grant>, k: int, m: string, r: string, role: string) {
    On(gs, k, m, r) && gs[k].binding.role == role && gs[k].binding.terraformAddr != ""
  }

  /** Grant k is the last grant that records an address for (m, r, role). */
  ghost predicate LastAddrOn(gs: seq<Grant>, k: int, m: string, r: string, role: string) {
    AddrOn(gs, k, m, r, role) && forall j :: k < j < |gs| ==> !AddrOn(gs, j, m, r, role)
  }

  lemma {:induction false} RecordAddrs(gs: seq<Grant>, m: string, r: string, role: string)
    requires RecordOf(gs, m, r).Some?
    ensures var addrs := RecordOf(gs, m, r).value.terraformAddrs;
      (role in addrs <==> exists k :: AddrOn(gs, k, m, r, role)) &&
      (role in addrs ==> exists k :: LastAddrOn(gs, k, m, r, role) && addrs[role] == gs[k].binding.terraformAddr)
  {
    var init := gs[..|gs| - 1];
    var n := |gs| - 1;
    assert forall j :: 0 <= j < n ==> (AddrOn(gs, j, m, r, role) <==> AddrOn(init, j, m, r, role));
    if AddrOn(gs, n, m, r, role) {
      assert LastAddrOn(gs, n, m, r, role);
    } else if RecordOf(init, m, r).Some? {
      RecordAddrs(init, m, r, role);
      if exists k :: AddrOn(gs, k, m, r, role) {
        var k :| AddrOn(gs, k, m, r, role);
        assert AddrOn(init, k, m, r, role);
      }
      if role in RecordOf(init, m, r).value.terraformAddrs {
        var k :| LastAddrOn(init, k, m, r, role) &&
          RecordOf(init, m, r).value.terraformAddrs[role] == init[k].binding.terraformAddr;
        LastAddrExtend(gs, k, m, r, role);
      }
    } else {
      RecordExists(init, m, r);
      assert forall j :: 0 <= j < n ==> !AddrOn(gs, j, m, r, role) by {
        forall j | 0 <= j < n ensures !AddrOn(gs, j, m, r, role) { assert !On(init, j, m, r); }
      }
    }
  }

  /** An address is recorded for a role only from a binding with a non-empty address for that role. */
  lemma AddressRecorded(gs: seq<Grant>, table: map<string, RoleHierarchy>, m: string, r: string, role: string)
    requires r in RA(Fold(gs, table), m)
    ensures role in RA(Fold(gs, table), m)[r].terraformAddrs <==> exists k :: AddrOn(gs, k, m, r, role)
  {
    FoldRecord(gs, table, m, r);
    RecordAddrs(gs, m, r, role);
  }

  /** When several bindings record an address for the same role, the last one wins. */
  lemma LastAddressWins(gs: seq<Grant>, table: map<string, RoleHierarchy>, m: string, r: string, role: string)
    requires r in RA(Fold(gs, table), m)
    requires role in RA(Fold(gs, table), m)[r].terraformAddrs
    ensures exists k :: LastAddrOn(gs, k, m, r, role) && RA(Fold(gs, table), m)[r].terraformAddrs[role] == gs[k].binding.terraformAddr
  {
    FoldRecord(gs, table, m, r);
    RecordAddrs(gs, m, r, role);
  }

  lemma LastAddrExtend(gs: seq<Grant>, k: int, m: string, r: string, role: string)
    requires |gs| > 0 && LastAddrOn(gs[..|gs| - 1], k, m, r, role) && !AddrOn(gs, |gs| - 1, m, r, role)
    ensures LastAddrOn(gs, k, m, r, role) && gs[k] == gs[..|gs| - 1][k]
  {
    var init := gs[..|gs| - 1];
    assert forall j :: 0 <= j < |init| ==> (AddrOn(gs, j, m, r, role) <==> AddrOn(init, j, m, r, role));
  }

  /** Grant k gives member m hierarchical access under project p. */
  ghost predicate HierOn(gs: seq<Grant>, table: map<string, RoleHierarchy>, k: int, m: string, p: string) {
    0 <= k < |gs| && gs[k].member == m && gs[k].binding.resourceID == p &&
    IsProjectIam(gs[k].binding.resourceType) && |ResourceTypesForRole(table, gs[k].binding.role)| > 0
  }

  /** The resource types of the roles of the project grants for m on p. */
  ghost function HierTypesOf(gs: seq<Grant>, table: map<string, RoleHierarchy>, m: string, p: string): set<string> {
    if |gs| == 0 then {}
    else
      var g := gs[|gs| - 1];
      HierTypesOf(gs[..|gs| - 1], table, m, p) +
        (if HierOn(gs, table, |gs| - 1, m, p) then TypeSet(ResourceTypesForRole(table, g.binding.role)) else {})
  }

  lemma {:induction false} HierTypesOfMembership(gs: seq<Grant>, table: map<string, RoleHierarchy>, m: string, p: string, t: string)
    ensures t in HierTypesOf(gs, table, m, p) <==>
      exists k :: HierOn(gs, table, k, m, p) && t in ResourceTypesForRole(table, gs[k].binding.role)
  {
    if |gs| > 0 {
      var init := gs[..|gs| - 1];
      HierTypesOfMembership(init, table, m, p, t);
      assert forall k :: 0 <= k < |init| ==> (HierOn(gs, table, k, m, p) <==> HierOn(init, table, k, m, p)) && gs[k] == init[k];
    }
  }

  /** The hierarchical record for (m, p) after the grants, computed on that pair alone. */
  ghost function HierOf(gs: seq<Grant>, table: map<string, RoleHierarchy>, m: string, p: string): Option<set<string>> {
    if |gs| == 0 then None
    else
      var prev := HierOf(gs[..|gs| - 1], table, m, p);
      if HierOn(gs, table, |gs| - 1, m, p) then
        Some((if prev.Some? then prev.value else {}) + TypeSet(ResourceTypesForRole(table, gs[|gs| - 1].binding.role)))
      else prev
  }

  lemma {:induction false} FoldHier(gs: seq<Grant>, table: map<string, RoleHierarchy>, m: string, p: string)
    ensures p in HA(Fold(gs, table), m) <==> HierOf(gs, table, m, p).Some?
    ensures p in HA(Fold(gs, table), m) ==> HA(Fold(gs, table), m)[p] == HierOf(gs, table, m, p).value
  {
    if |gs| > 0 {
      var init := gs[..|gs| - 1];
      FoldHier(init, table, m, p);
      ApplyGrantHierarchical(Fold(init, table), gs[|gs| - 1], table, m, p);
    }
  }

  lemma {:induction false} HierExists(gs: seq<Grant>, table: map<string, RoleHierarchy>, m: string, p: string)
    ensures HierOf(gs, table, m, p).Some? <==> exists k :: HierOn(gs, table, k, m, p)
    ensures HierTypesOf(gs, table, m, p) == (if HierOf(gs, table, m, p).Some? then HierOf(gs, table, m, p).value else {})
  {
    if |gs| > 0 {
      var init := gs[..|gs| - 1];
      HierExists(init, table, m, p);
      if exists k :: HierOn(gs, table, k, m, p) {
        var k :| HierOn(gs, table, k, m, p);
        if k < |init| { assert HierOn(init, table, k, m, p); }
      }
      if exists k :: HierOn(init, table, k, m, p) {
        var k :| HierOn(init, table, k, m, p);
        assert HierOn(gs, table, k, m, p);
      }
    }
  }

  /** Hierarchical access under project p is recorded iff some project IAM grant for m on p has a role with resource types. */
  lemma HierarchicalFromProjects(gs: seq<Grant>, table: map<string, RoleHierarchy>, m: string, p: string)
    ensures p in HA(Fold(gs, table), m) <==> exists k :: HierOn(gs, table, k, m, p)
  {
    FoldHier(gs, table, m, p);
    HierExists(gs, table, m, p);
  }

  /** The types recorded under project p are exactly the types of those grants' roles. */
  lemma HierarchicalTypes(gs: seq<Grant>, table: map<string, RoleHierarchy>, m: string, p: string)
    requires p in HA(Fold(gs, table), m)
    ensures HA(Fold(gs, table), m)[p] == HierTypesOf(gs, table, m, p)
  {
    FoldHier(gs, table, m, p);
    HierExists(gs, table, m, p);
  }

  // ---------------------------------------------------------------------
  // Growth and re-processing.

  /** Processing further bindings never removes a resource record or a role. */
  lemma RolesOnlyGrow(gs: seq<Grant>, more: seq<Grant>, table: map<string, RoleHierarchy>, m: string, r: string)
    requires r in RA(Fold(gs, table), m)
    ensures r in RA(Fold(gs + more, table), m)
    ensures RA(Fold(gs, table), m)[r].roles <= RA(Fold(gs + more, table), m)[r].roles
  {
    RolesOnResource(gs, table, m, r);
    RolesOnResource(gs + more, table, m, r);
    var k :| On(gs, k, m, r);
    assert On(gs + more, k, m, r);
    forall role | role in RA(Fold(gs, table), m)[r].roles
      ensures role in RA(Fold(gs + more, table), m)[r].roles
    {
      RolesOfMembership(gs, m, r, role);
      RolesOfMembership(gs + more, m, r, role);
      var k' :| On(gs, k', m, r) && gs[k'].binding.role == role;
      assert On(gs + more, k', m, r) && (gs + more)[k'].binding.role == role;
    }
  }

  /** Processing the same member of the same binding twice in a row changes nothing. */
  lemma ReprocessingIsIdempotent(results: map<string, PrincipalData>, g: Grant, table: map<string, RoleHierarchy>)
    ensures ApplyGrant(ApplyGrant(results, g, table), g, table) == ApplyGrant(results, g, table)
  {
    var once := ApplyGrant(results, g, table);
    var twice := ApplyGrant(once, g, table);
    var b := g.binding;
    var d1 := once[g.member];
    var d2 := twice[g.member];
    assert ProcessDirectAccess(d1, b).resourceAccess == d1.resourceAccess by {
      var meta := d1.resourceAccess[b.resourceID];
      assert b.role in meta.roles;
      assert meta.roles + {b.role} == meta.roles;
      if b.terraformAddr != "" {
        assert meta.terraformAddrs[b.role := b.terraformAddr] == meta.terraformAddrs;
      }
    }
    assert d2.hierarchicalAccess == d1.hierarchicalAccess by {
      var types := ResourceTypesForRole(table, b.role);
      if IsProjectIam(b.resourceType) && |types| > 0 {
        var cur := d1.hierarchicalAccess[b.resourceID];
        assert cur + TypeSet(types) == cur;
      }
    }
  }
}
