/**
 * internal/parser/plan_parser.go after the plan JSON has been decoded: the
 * definition lookup table, the per-resource binding extraction and the
 * recursive walk over a module tree.
 */
module PlanParser {
  import opened Util
  import opened ParserTypes
  import opened ParserUtils

  datatype Resource = Resource(
    address: string,
    mode: string,
    rtype: string,
    name: string,
    providerName: string,
    values: map<string, JsonValue>)

  datatype Module = Module(resources: seq<Resource>, childModules: seq<Module>)

  datatype TerraformPlan = TerraformPlan(formatVersion: string, terraformVersion: string, rootModule: Module)

  /** The definition table after storing every definition in order (a later one with the same type overwrites). */
  function DefMapOf(defs: seq<ResourceDefinition>): map<string, ResourceDefinition> {
    if |defs| == 0 then map[]
    else DefMapOf(defs[..|defs| - 1])[defs[|defs| - 1].rtype := defs[|defs| - 1]]
  }

  /** A type is in the table iff some definition has it, and the last such definition wins. */
  lemma {:induction false} DefMapLastWins(defs: seq<ResourceDefinition>, t: string)
    ensures t in DefMapOf(defs) <==> exists i :: 0 <= i < |defs| && defs[i].rtype == t
    ensures t in DefMapOf(defs) ==>
      exists i :: 0 <= i < |defs| && DefMapOf(defs)[t] == defs[i] && defs[i].rtype == t &&
        forall j :: i < j < |defs| ==> defs[j].rtype != t
  {
    if |defs| > 0 {
      var init := defs[..|defs| - 1];
      DefMapLastWins(init, t);
      if defs[|defs| - 1].rtype != t && t in DefMapOf(defs) {
        var i :| 0 <= i < |init| && DefMapOf(init)[t] == init[i] && init[i].rtype == t &&
          forall j :: i < j < |init| ==> init[j].rtype != t;
        assert defs[i] == init[i];
      }
      if exists i :: 0 <= i < |defs| && defs[i].rtype == t {
        var i :| 0 <= i < |defs| && defs[i].rtype == t;
        if i < |defs| - 1 { assert init[i].rtype == t; }
      }
    }
  }

  /** The definition-map loop of ParsePlanFile. */
  method BuildDefMap(defs: seq<ResourceDefinition>) returns (defMap: map<string, ResourceDefinition>)
    ensures defMap == DefMapOf(defs)
  {
    defMap := map[];
    var i := 0;
    while i < |defs|
      invariant 0 <= i <= |defs|
      invariant defMap == DefMapOf(defs[..i])
    {
      assert defs[..i + 1][..i] == defs[..i];
      defMap := defMap[defs[i].rtype := defs[i]];
      i := i + 1;
    }
    assert defs[..i] == defs;
  }

  /** A string-valued attribute named by a non-empty field mapping, else "". */
  function MappedString(values: map<string, JsonValue>, field: string): string {
    if field != "" && field in values && values[field].JString? then values[field].str else ""
  }

  /** The members: the singular attribute first, then the string elements of the plural list. */
  function MappedMembers(values: map<string, JsonValue>, fm: FieldMapping): (r: seq<string>)
    ensures forall m :: m in r ==>
      (fm.member != "" && fm.member in values && values[fm.member] == JString(m)) ||
      (fm.members != "" && fm.members in values && values[fm.members].JList? && JString(m) in values[fm.members].items)
  {
    (if fm.member != "" && fm.member in values && values[fm.member].JString? then [values[fm.member].str] else [])
    + (if fm.members != "" && fm.members in values && values[fm.members].JList? then StringElems(values[fm.members].items) else [])
  }

  /** The parent type the plan reader assigns from the level alone, without looking at the parent ID's prefix. */
  function PlanParentType(level: string, parentID: string): (r: string)
    ensures r != "" <==> level == "folder" || level == "resource" || (level == "project" && parentID != "")
    ensures level == "folder" ==> r == "organization"
    ensures level == "project" && parentID != "" ==> r == "folder"
    ensures level == "resource" ==> r == "project"
  {
    if level == "folder" then "organization"
    else if level == "project" then (if parentID != "" then "folder" else "")
    else if level == "resource" then "project"
    else ""
  }

  /** The binding extractBindingFromResource builds, and the error it reports (if any). */
  datatype Extraction = Extraction(binding: IAMBinding, err: Option<string>)

  function ExtractBindingFromResource(res: Resource, def: ResourceDefinition): (x: Extraction)
    ensures x.binding.resourceType == res.rtype && x.binding.terraformAddr == res.address
    ensures x.binding.resourceID == MappedString(res.values, def.fieldMappings.resourceID)
    ensures x.binding.role == MappedString(res.values, def.fieldMappings.role)
    ensures x.binding.parentID == MappedString(res.values, def.fieldMappings.parent)
    ensures x.binding.resourceLevel == (if def.resourceLevel == "" then "resource" else def.resourceLevel)
    ensures x.binding.members == MappedMembers(res.values, def.fieldMappings)
    ensures x.binding.parentType == PlanParentType(x.binding.resourceLevel, x.binding.parentID)
    ensures x.err.None? <==> x.binding.resourceID != "" && x.binding.role != "" && |x.binding.members| > 0
    ensures x.err == Some("missing resource ID") <==> x.binding.resourceID == ""
    ensures x.err == Some("missing role") <==> x.binding.resourceID != "" && x.binding.role == ""
  {
    var fm := def.fieldMappings;
    var level := if def.resourceLevel == "" then "resource" else def.resourceLevel;
    var parentID := MappedString(res.values, fm.parent);
    var b := IAMBinding(
      MappedString(res.values, fm.resourceID), res.rtype, level,
      MappedString(res.values, fm.role), MappedMembers(res.values, fm),
      parentID, PlanParentType(level, parentID), res.address);
    var err :=
      if b.resourceID == "" then Some("missing resource ID")
      else if b.role == "" then Some("missing role")
      else if |b.members| == 0 then Some("no members found")
      else None;
    Extraction(b, err)
  }

  /** A managed resource of a known type whose extraction succeeded with binding `b`. */
  ghost predicate Yields(res: Resource, defMap: map<string, ResourceDefinition>, b: IAMBinding) {
    res.mode == "managed" && res.rtype in defMap &&
    ExtractBindingFromResource(res, defMap[res.rtype]) == Extraction(b, None)
  }

  /** The module's own resources that yield a binding, in order. */
  function ExtractFromResources(rs: seq<Resource>, defMap: map<string, ResourceDefinition>): (r: seq<IAMBinding>)
    ensures |r| <= |rs|
    ensures forall b :: b in r ==> exists k :: 0 <= k < |rs| && Yields(rs[k], defMap, b)
  {
    if |rs| == 0 then []
    else
      var rest := ExtractFromResources(rs[1..], defMap);
      var head :=
        if rs[0].mode == "managed" && rs[0].rtype in defMap then
          var x := ExtractBindingFromResource(rs[0], defMap[rs[0].rtype]);
          if x.err.None? then [x.binding] else []
        else [];
      assert forall k :: 0 <= k < |rs[1..]| ==> rs[1..][k] == rs[k + 1];
      head + rest
  }

  /** Every managed resource of a known type whose extraction succeeds contributes its binding. */
  lemma {:induction false} ResourcesComplete(rs: seq<Resource>, defMap: map<string, ResourceDefinition>, k: int, b: IAMBinding)
    requires 0 <= k < |rs| && Yields(rs[k], defMap, b)
    ensures b in ExtractFromResources(rs, defMap)
    decreases |rs|
  {
    if k > 0 {
      assert rs[1..][k - 1] == rs[k];
      ResourcesComplete(rs[1..], defMap, k - 1, b);
    }
  }

  /** A resource that is not managed, or whose type has no definition, contributes nothing. */
  lemma SkippedResource(rs: seq<Resource>, defMap: map<string, ResourceDefinition>)
    requires |rs| > 0 && (rs[0].mode != "managed" || rs[0].rtype !in defMap)
    ensures ExtractFromResources(rs, defMap) == ExtractFromResources(rs[1..], defMap)
  {
  }

  /** Every binding the plan reader emits passed the three validity checks. */
  ghost predicate WellFormed(b: IAMBinding) {
    b.resourceID != "" && b.role != "" && |b.members| > 0
  }

  /**
   * extractBindingsFromModule: the module's own resources first, then each
   * child module's bindings, recursively and in order.
   */
  function ExtractBindingsFromModule(m: Module, defMap: map<string, ResourceDefinition>): (r: seq<IAMBinding>)
    ensures forall b :: b in r ==> WellFormed(b) && b.resourceType in defMap
    decreases m, 1
  {
    ExtractFromResources(m.resources, defMap) + ExtractFromChildren(m.childModules, defMap)
  }

  function ExtractFromChildren(children: seq<Module>, defMap: map<string, ResourceDefinition>): (r: seq<IAMBinding>)
    ensures forall b :: b in r ==> WellFormed(b) && b.resourceType in defMap
    decreases children, 0
  {
    if |children| == 0 then []
    else ExtractBindingsFromModule(children[0], defMap) + ExtractFromChildren(children[1..], defMap)
  }

  /** ParsePlanFile once the plan is decoded: build the table, then walk the root module. */
  method ParsePlan(plan: TerraformPlan, defs: seq<ResourceDefinition>) returns (bindings: seq<IAMBinding>)
    ensures bindings == ExtractBindingsFromModule(plan.rootModule, DefMapOf(defs))
    ensures forall b :: b in bindings ==> WellFormed(b) && exists i :: 0 <= i < |defs| && defs[i].rtype == b.resourceType
  {
    var defMap := BuildDefMap(defs);
    bindings := ExtractBindingsFromModule(plan.rootModule, defMap);
    forall b | b in bindings
      ensures exists i :: 0 <= i < |defs| && defs[i].rtype == b.resourceType
    {
      DefMapLastWins(defs, b.resourceType);
    }
  }

  /**
   * The plan reader does not inspect the parent ID's prefix: a project whose
   * parent is "organizations/123" gets parent type "folder", where
   * DetermineParentType says "organization".
   */
  lemma PlanParentTypeIgnoresPrefix()
    ensures PlanParentType("project", "organizations/123") == "folder"
    ensures DetermineParentType("project", "organizations/123") == "organization"
  {
    assert "organizations/123"[..8][0] != "folders/"[0];
    assert "organizations/123"[..14] == "organizations/";
  }
}
