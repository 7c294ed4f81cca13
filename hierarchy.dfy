/**
 * internal/analyzer/hierarchy.go: the fixed order of hierarchy levels, the
 * hierarchy nodes registered by organization, folder and project bindings,
 * the nodes whose parent is unknown, and the hierarchical access entries and
 * warnings derived from the role table.
 */
module Hierarchy {
  import opened Util
  import opened ParserTypes
  import opened Definitions
  import Impersonation

  datatype HierarchyNode = HierarchyNode(id: string, ntype: string, parentID: string, parentType: string)

  datatype UnknownHierarchy = UnknownHierarchy(id: string, utype: string, referencedBy: seq<string>)

  datatype Scope = Scope(stype: string, id: string)

  datatype Grants = Grants(affectedLevels: seq<string>, resourceTypes: seq<string>, displayName: string, accessType: string)

  datatype Source = Source(resourceType: string, resourceAddress: string)

  datatype HierarchicalAccessEntry = HierarchicalAccessEntry(
    principal: string,
    principalType: string,
    role: string,
    scope: Scope,
    grants: Grants,
    hierarchyKnown: bool,
    source: Source)

  datatype Warning = Warning(
    wtype: string,
    role: string,
    scopeID: string,
    scopeType: string,
    resourceAddress: string)

  datatype HierarchyAnalysisResult = HierarchyAnalysisResult(
    nodes: seq<HierarchyNode>,
    unknown: seq<UnknownHierarchy>,
    hierarchicalAccess: seq<HierarchicalAccessEntry>,
    warnings: seq<Warning>)

  // ---------------------------------------------------------------------
  // Levels.

  const HierarchyOrder: map<string, nat> := map["organization" := 0, "folder" := 1, "project" := 2, "resource" := 3]

  /** The levels that register nodes and can carry hierarchical grants: everything but "resource". */
  predicate IsHierarchyLevel(level: string)
    ensures IsHierarchyLevel(level) <==> level in HierarchyOrder && HierarchyOrder[level] < HierarchyOrder["resource"]
  {
    level == "organization" || level == "folder" || level == "project"
  }

  /** No hierarchy level contains the key separator ':'. */
  lemma LevelHasNoColon(level: string)
    requires IsHierarchyLevel(level)
    ensures ':' !in level
  {
    assert forall c :: c in "organization" ==> c != ':';
    assert forall c :: c in "folder" ==> c != ':';
    assert forall c :: c in "project" ==> c != ':';
  }

  /** isHigherLevel: both levels are in the order table and the first comes strictly before the second. */
  function IsHigherLevel(bindingLevel: string, targetLevel: string): (r: bool)
    ensures r <==>
      (bindingLevel == "organization" && (targetLevel == "folder" || targetLevel == "project" || targetLevel == "resource")) ||
      (bindingLevel == "folder" && (targetLevel == "project" || targetLevel == "resource")) ||
      (bindingLevel == "project" && targetLevel == "resource")
  {
    if bindingLevel !in HierarchyOrder || targetLevel !in HierarchyOrder then false
    else HierarchyOrder[bindingLevel] < HierarchyOrder[targetLevel]
  }

  /** isHigherLevel is a strict total order on the four known levels and false whenever a level is unknown. */
  lemma HigherLevelIsStrictOrder(a: string, b: string, c: string)
    ensures !IsHigherLevel(a, a)
    ensures IsHigherLevel(a, b) ==> !IsHigherLevel(b, a)
    ensures IsHigherLevel(a, b) && IsHigherLevel(b, c) ==> IsHigherLevel(a, c)
    ensures a in HierarchyOrder && b in HierarchyOrder && a != b ==> IsHigherLevel(a, b) || IsHigherLevel(b, a)
    ensures a !in HierarchyOrder || b !in HierarchyOrder ==> !IsHigherLevel(a, b)
  {
  }

  /** getAffectedLevels: exactly the levels below the scope, from the top down. */
  function GetAffectedLevels(scopeLevel: string): (r: seq<string>)
    ensures forall l :: l in r <==> IsHigherLevel(scopeLevel, l)
    ensures forall i, j :: 0 <= i < j < |r| ==> IsHigherLevel(r[i], r[j])
  {
    if scopeLevel == "organization" then ["folder", "project", "resource"]
    else if scopeLevel == "folder" then ["project", "resource"]
    else if scopeLevel == "project" then ["resource"]
    else []
  }

  // ---------------------------------------------------------------------
  // Step 1: hierarchy nodes.

  /** The "type:id" key the analysis uses for nodes, unknown references and scopes. */
  function NodeKey(level: string, id: string): string {
    level + ":" + id
  }

  /** A level without ':' and an ID can be read back from their key. */
  lemma NodeKeyInjective(l1: string, id1: string, l2: string, id2: string)
    requires ':' !in l1 && ':' !in l2 && NodeKey(l1, id1) == NodeKey(l2, id2)
    ensures l1 == l2 && id1 == id2
  {
    SplitN2Concat(l1, ':', id1);
    SplitN2Concat(l2, ':', id2);
  }

  function BindingKey(b: IAMBinding): string {
    NodeKey(b.resourceLevel, b.resourceID)
  }

  function NodeOf(b: IAMBinding): HierarchyNode {
    HierarchyNode(b.resourceID, b.resourceLevel, b.parentID, b.parentType)
  }

  /** A node below organization level registered without a parent ID. */
  predicate ParentUnknown(b: IAMBinding) {
    b.parentID == "" && b.resourceLevel != "organization"
  }

  /** The maps of step 1: the keys seen, the nodes appended, and the addresses of nodes without a parent. */
  datatype NodeState = NodeState(known: set<string>, nodes: seq<HierarchyNode>, unknownRefs: map<string, seq<string>>)

  function RefsAt(m: map<string, seq<string>>, key: string): seq<string> {
    if key in m then m[key] else []
  }

  /** One binding of the node loop: a hierarchy-level binding with a new key registers its node. */
  function RegisterStep(st: NodeState, b: IAMBinding): NodeState {
    var key := BindingKey(b);
    if !IsHierarchyLevel(b.resourceLevel) || key in st.known then st
    else
      var refs := if ParentUnknown(b) then st.unknownRefs[key := RefsAt(st.unknownRefs, key) + [b.terraformAddr]]
                  else st.unknownRefs;
      NodeState(st.known + {key}, st.nodes + [NodeOf(b)], refs)
  }

  function Registered(bs: seq<IAMBinding>): NodeState {
    if |bs| == 0 then NodeState({}, [], map[])
    else RegisterStep(Registered(bs[..|bs| - 1]), bs[|bs| - 1])
  }

  lemma RegisteredSnoc(bs: seq<IAMBinding>, b: IAMBinding)
    ensures Registered(bs + [b]) == RegisterStep(Registered(bs), b)
  {
    assert (bs + [b])[..|bs|] == bs;
  }

  /** bs[k] is the first binding with its key that registers a node. */
  ghost predicate FirstRegistering(bs: seq<IAMBinding>, k: int) {
    0 <= k < |bs| && IsHierarchyLevel(bs[k].resourceLevel) &&
    forall j :: 0 <= j < k ==> !(IsHierarchyLevel(bs[j].resourceLevel) && BindingKey(bs[j]) == BindingKey(bs[k]))
  }

  /** The keys seen are the keys of the hierarchy-level bindings, and every unknown reference has a seen key. */
  lemma {:induction false} KnownKeys(bs: seq<IAMBinding>, key: string)
    ensures key in Registered(bs).known <==>
      exists k :: 0 <= k < |bs| && IsHierarchyLevel(bs[k].resourceLevel) && BindingKey(bs[k]) == key
    ensures Registered(bs).unknownRefs.Keys <= Registered(bs).known
  {
    if |bs| > 0 {
      var init := bs[..|bs| - 1];
      KnownKeys(init, key);
      if exists k :: 0 <= k < |bs| && IsHierarchyLevel(bs[k].resourceLevel) && BindingKey(bs[k]) == key {
        var k :| 0 <= k < |bs| && IsHierarchyLevel(bs[k].resourceLevel) && BindingKey(bs[k]) == key;
        if k < |init| { assert init[k] == bs[k]; }
      }
      if key in Registered(init).known {
        var k :| 0 <= k < |init| && IsHierarchyLevel(init[k].resourceLevel) && BindingKey(init[k]) == key;
        assert bs[k] == init[k];
      }
    }
  }

  /** The nodes registered so far, one binding at a time. */
  lemma RegisterNodes(st: NodeState, b: IAMBinding)
    ensures IsHierarchyLevel(b.resourceLevel) && BindingKey(b) !in st.known ==>
      RegisterStep(st, b).nodes == st.nodes + [NodeOf(b)] && RegisterStep(st, b).known == st.known + {BindingKey(b)}
    ensures !(IsHierarchyLevel(b.resourceLevel) && BindingKey(b) !in st.known) ==> RegisterStep(st, b) == st
  {
  }

  /** Every node's key has been seen. */
  lemma {:induction false} NodeKeySeen(bs: seq<IAMBinding>, i: int)
    requires 0 <= i < |Registered(bs).nodes|
    ensures NodeKey(Registered(bs).nodes[i].ntype, Registered(bs).nodes[i].id) in Registered(bs).known
  {
    var init := bs[..|bs| - 1];
    var st0 := Registered(init);
    RegisterNodes(st0, bs[|bs| - 1]);
    if i < |st0.nodes| {
      NodeKeySeen(init, i);
    }
  }

  /** Each node is the node of the first binding that registered its key. */
  lemma {:induction false} NodeFromFirst(bs: seq<IAMBinding>, i: int)
    requires 0 <= i < |Registered(bs).nodes|
    ensures exists k :: FirstRegistering(bs, k) && Registered(bs).nodes[i] == NodeOf(bs[k])
  {
    var init := bs[..|bs| - 1];
    var b := bs[|bs| - 1];
    var st0 := Registered(init);
    RegisterNodes(st0, b);
    assert forall j :: 0 <= j < |init| ==> bs[j] == init[j];
    if i < |st0.nodes| {
      NodeFromFirst(init, i);
      var k :| FirstRegistering(init, k) && st0.nodes[i] == NodeOf(init[k]);
      assert FirstRegistering(bs, k);
    } else {
      forall j | 0 <= j < |init|
        ensures !(IsHierarchyLevel(bs[j].resourceLevel) && BindingKey(bs[j]) == BindingKey(b))
      {
        KnownKeys(init, BindingKey(b));
      }
      assert FirstRegistering(bs, |bs| - 1);
    }
  }

  /** The nodes are unique by (Type, ID). */
  lemma {:induction false} NodesUnique(bs: seq<IAMBinding>)
    ensures var ns := Registered(bs).nodes;
      forall i, j :: 0 <= i < j < |ns| ==> (ns[i].ntype, ns[i].id) != (ns[j].ntype, ns[j].id)
  {
    if |bs| > 0 {
      var init := bs[..|bs| - 1];
      var b := bs[|bs| - 1];
      var st0 := Registered(init);
      RegisterNodes(st0, b);
      NodesUnique(init);
      assert bs == init + [b];
      RegisteredSnoc(init, b);
      var ns := Registered(bs).nodes;
      if IsHierarchyLevel(b.resourceLevel) && BindingKey(b) !in st0.known {
        assert ns == st0.nodes + [NodeOf(b)];
        var last := ns[|ns| - 1];
        assert NodeKey(last.ntype, last.id) == BindingKey(b);
        forall i | 0 <= i < |st0.nodes|
          ensures ns[i] == st0.nodes[i] && (ns[i].ntype, ns[i].id) != (last.ntype, last.id)
        {
          NodeKeySeen(init, i);
          assert ns[i] == st0.nodes[i];
        }
      } else {
        assert ns == st0.nodes;
      }
    }
  }

  /** Every key seen has a node with that key. */
  lemma {:induction false} KeyHasNode(bs: seq<IAMBinding>, key: string)
    requires key in Registered(bs).known
    ensures var ns := Registered(bs).nodes;
      exists i :: 0 <= i < |ns| && NodeKey(ns[i].ntype, ns[i].id) == key
  {
    var init := bs[..|bs| - 1];
    var b := bs[|bs| - 1];
    var st0 := Registered(init);
    RegisterNodes(st0, b);
    var ns := Registered(bs).nodes;
    if key in st0.known {
      KeyHasNode(init, key);
      var i :| 0 <= i < |st0.nodes| && NodeKey(st0.nodes[i].ntype, st0.nodes[i].id) == key;
      assert ns[i] == st0.nodes[i];
    } else {
      assert ns[|ns| - 1] == NodeOf(b);
    }
  }

  /** Every hierarchy-level binding has a node with its level and ID. */
  lemma NodesComplete(bs: seq<IAMBinding>, k: int)
    requires 0 <= k < |bs| && IsHierarchyLevel(bs[k].resourceLevel)
    ensures var ns := Registered(bs).nodes;
      exists i :: 0 <= i < |ns| && ns[i].ntype == bs[k].resourceLevel && ns[i].id == bs[k].resourceID
  {
    var b := bs[k];
    KnownKeys(bs, BindingKey(b));
    KeyHasNode(bs, BindingKey(b));
    var ns := Registered(bs).nodes;
    var i :| 0 <= i < |ns| && NodeKey(ns[i].ntype, ns[i].id) == BindingKey(b);
    NodeLevel(bs, i);
    NodeKeyInjective(ns[i].ntype, ns[i].id, b.resourceLevel, b.resourceID);
  }

  /** Every node is at a hierarchy level. */
  lemma NodeLevel(bs: seq<IAMBinding>, i: int)
    requires 0 <= i < |Registered(bs).nodes|
    ensures IsHierarchyLevel(Registered(bs).nodes[i].ntype)
  {
    NodeFromFirst(bs, i);
  }

  /** How one binding changes the unknown references. */
  lemma RegisterRefs(st: NodeState, b: IAMBinding)
    ensures IsHierarchyLevel(b.resourceLevel) && BindingKey(b) !in st.known && ParentUnknown(b) ==>
      RegisterStep(st, b).unknownRefs == st.unknownRefs[BindingKey(b) := RefsAt(st.unknownRefs, BindingKey(b)) + [b.terraformAddr]]
    ensures !(IsHierarchyLevel(b.resourceLevel) && BindingKey(b) !in st.known && ParentUnknown(b)) ==>
      RegisterStep(st, b).unknownRefs == st.unknownRefs
  {
  }

  /** bs[k] is the first binding registering `key`, and it had no parent ID below organization level. */
  ghost predicate UnknownFirst(bs: seq<IAMBinding>, k: int, key: string) {
    FirstRegistering(bs, k) && ParentUnknown(bs[k]) && BindingKey(bs[k]) == key
  }

  lemma UnknownFirstPrefix(bs: seq<IAMBinding>, b: IAMBinding, k: int, key: string)
    ensures UnknownFirst(bs, k, key) <==> 0 <= k < |bs| && UnknownFirst(bs + [b], k, key)
  {
    assert forall j :: 0 <= j < |bs| ==> (bs + [b])[j] == bs[j];
  }

  /**
   * A key has unknown references iff its first registering binding had no
   * parent ID and is below organization level; the references are exactly
   * that binding's address.
   */
  lemma {:induction false} UnknownRefsFromFirst(bs: seq<IAMBinding>, key: string)
    ensures key in Registered(bs).unknownRefs <==> exists k :: UnknownFirst(bs, k, key)
    ensures key in Registered(bs).unknownRefs ==>
      exists k :: UnknownFirst(bs, k, key) && Registered(bs).unknownRefs[key] == [bs[k].terraformAddr]
  {
    if |bs| > 0 {
      var init := bs[..|bs| - 1];
      var b := bs[|bs| - 1];
      assert bs == init + [b];
      var st0 := Registered(init);
      var refs := Registered(bs).unknownRefs;
      RegisterRefs(st0, b);
      UnknownRefsFromFirst(init, key);
      KnownKeys(init, key);
      var isNew := IsHierarchyLevel(b.resourceLevel) && BindingKey(b) !in st0.known && ParentUnknown(b);
      if key in st0.unknownRefs {
        var k :| UnknownFirst(init, k, key) && st0.unknownRefs[key] == [init[k].terraformAddr];
        UnknownFirstPrefix(init, b, k, key);
        assert refs[key] == st0.unknownRefs[key];
      } else if isNew && key == BindingKey(b) {
        UnknownNew(init, b);
      } else {
        UnknownNone(init, b, key);
      }
    }
  }

  /** The binding that registers a fresh key without a parent is its own first registration. */
  lemma {:induction false} UnknownNew(init: seq<IAMBinding>, b: IAMBinding)
    requires IsHierarchyLevel(b.resourceLevel) && BindingKey(b) !in Registered(init).known && ParentUnknown(b)
    ensures UnknownFirst(init + [b], |init|, BindingKey(b))
  {
    var bs := init + [b];
    KnownKeys(init, BindingKey(b));
    assert forall j :: 0 <= j < |init| ==> bs[j] == init[j];
  }

  /** Without an earlier or a fresh unknown registration of `key`, there is none at all. */
  lemma UnknownNone(init: seq<IAMBinding>, b: IAMBinding, key: string)
    requires !exists k :: UnknownFirst(init, k, key)
    requires !(IsHierarchyLevel(b.resourceLevel) && BindingKey(b) !in Registered(init).known && ParentUnknown(b) &&
               key == BindingKey(b))
    ensures !exists k :: UnknownFirst(init + [b], k, key)
  {
    if exists k :: UnknownFirst(init + [b], k, key) {
      var k :| UnknownFirst(init + [b], k, key);
      if k < |init| {
        UnknownFirstPrefix(init, b, k, key);
      } else {
        var bs := init + [b];
        KnownKeys(init, key);
        if key in Registered(init).known {
          var j :| 0 <= j < |init| && IsHierarchyLevel(init[j].resourceLevel) && BindingKey(init[j]) == key;
          assert bs[j] == init[j];
        }
      }
    }
  }

  /** The node loop of AnalyzeHierarchy. */
  method BuildNodes(bindings: seq<IAMBinding>)
    returns (nodes: seq<HierarchyNode>, unknownRefs: map<string, seq<string>>)
    ensures nodes == Registered(bindings).nodes && unknownRefs == Registered(bindings).unknownRefs
  {
    var knownNodes: set<string> := {};
    nodes := [];
    unknownRefs := map[];
    var i := 0;
    while i < |bindings|
      invariant 0 <= i <= |bindings|
      invariant NodeState(knownNodes, nodes, unknownRefs) == Registered(bindings[..i])
    {
      var binding := bindings[i];
      RegisteredSnoc(bindings[..i], binding);
      assert bindings[..i + 1] == bindings[..i] + [binding];
      if IsHierarchyLevel(binding.resourceLevel) {
        var nodeKey := binding.resourceLevel + ":" + binding.resourceID;
        if nodeKey !in knownNodes {
          knownNodes := knownNodes + {nodeKey};
          nodes := nodes + [HierarchyNode(binding.resourceID, binding.resourceLevel, binding.parentID, binding.parentType)];
          if binding.parentID == "" && binding.resourceLevel != "organization" {
            var unknownKey := binding.resourceLevel + ":" + binding.resourceID;
            var refs := if unknownKey in unknownRefs then unknownRefs[unknownKey] else [];
            unknownRefs := unknownRefs[unknownKey := refs + [binding.terraformAddr]];
          }
        }
      }
      i := i + 1;
    }
    assert bindings[..i] == bindings;
  }

  // ---------------------------------------------------------------------
  // Step 2: the unknown hierarchy list.

  /** The entry for one unknown reference key; a key without ':' gives none. */
  function UnknownOf(key: string, refs: seq<string>): Option<UnknownHierarchy> {
    var parts := SplitN2(key, ':');
    if |parts| == 2 then Some(UnknownHierarchy(parts[1], parts[0], refs)) else None
  }

  /** The unknown list when the map's keys are visited in the order `order`. */
  function UnknownList(order: seq<string>, m: map<string, seq<string>>): seq<UnknownHierarchy>
    requires forall k :: k in order ==> k in m
  {
    if |order| == 0 then []
    else
      var key := order[|order| - 1];
      var u := UnknownOf(key, m[key]);
      UnknownList(order[..|order| - 1], m) + (if u.Some? then [u.value] else [])
  }

  /** The second loop of AnalyzeHierarchy, over the unknown references in map order (any order). */
  method BuildUnknown(unknownRefs: map<string, seq<string>>)
    returns (unknown: seq<UnknownHierarchy>, ghost order: seq<string>)
    ensures Enumerates(order, unknownRefs.Keys)
    ensures unknown == UnknownList(order, unknownRefs)
  {
    unknown := [];
    order := [];
    var remaining := unknownRefs.Keys;
    while remaining != {}
      invariant remaining <= unknownRefs.Keys
      invariant NoDup(order)
      invariant forall k :: k in order <==> k in unknownRefs && k !in remaining
      invariant unknown == UnknownList(order, unknownRefs)
      decreases |remaining|
    {
      var key :| key in remaining;
      var refs := unknownRefs[key];
      var parts := SplitN2(key, ':');
      if |parts| == 2 {
        unknown := unknown + [UnknownHierarchy(parts[1], parts[0], refs)];
      }
      NoDupSnoc(order, key);
      UnknownListAppend(order, unknownRefs, key);
      order := order + [key];
      remaining := remaining - {key};
    }
    assert (set w | w in order) == unknownRefs.Keys;
  }

  /** Visiting one more key appends its entry when it splits. */
  lemma UnknownListAppend(order: seq<string>, m: map<string, seq<string>>, key: string)
    requires forall k :: k in order ==> k in m
    requires key in m
    ensures UnknownList(order + [key], m) ==
      UnknownList(order, m) + (if UnknownOf(key, m[key]).Some? then [UnknownOf(key, m[key]).value] else [])
  {
    assert (order + [key])[..|order|] == order;
  }

  /** The keys of `order` split into a level and an ID. */
  ghost predicate AllSplit(order: seq<string>, m: map<string, seq<string>>) {
    && (forall k :: k in order ==> k in m)
    && forall j :: 0 <= j < |order| ==> UnknownOf(order[j], m[order[j]]).Some?
  }

  lemma AllSplitPrefix(order: seq<string>, m: map<string, seq<string>>)
    requires |order| > 0 && AllSplit(order, m)
    ensures AllSplit(order[..|order| - 1], m)
  {
    var init := order[..|order| - 1];
    assert forall k :: k in init ==> k in order;
    assert forall j :: 0 <= j < |init| ==> init[j] == order[j];
  }

  /** When every key splits, the list has one entry per key, in the same order. */
  lemma {:induction false} UnknownListAt(order: seq<string>, m: map<string, seq<string>>, i: int)
    requires AllSplit(order, m)
    requires 0 <= i < |order|
    ensures |UnknownList(order, m)| == |order|
    ensures UnknownList(order, m)[i] == UnknownOf(order[i], m[order[i]]).value
  {
    var n := |order| - 1;
    var init := order[..n];
    AllSplitPrefix(order, m);
    UnknownListLength(init, m);
    UnknownListSnoc(order, m);
    if i < n {
      assert init[i] == order[i];
      UnknownListAt(init, m, i);
    }
  }

  /** When the last key splits, it appends its entry. */
  lemma UnknownListSnoc(order: seq<string>, m: map<string, seq<string>>)
    requires |order| > 0 && AllSplit(order, m)
    ensures UnknownList(order, m) ==
      UnknownList(order[..|order| - 1], m) + [UnknownOf(order[|order| - 1], m[order[|order| - 1]]).value]
  {
    assert UnknownOf(order[|order| - 1], m[order[|order| - 1]]).Some?;
  }

  lemma {:induction false} UnknownListLength(order: seq<string>, m: map<string, seq<string>>)
    requires AllSplit(order, m)
    ensures |UnknownList(order, m)| == |order|
  {
    if |order| > 0 {
      AllSplitPrefix(order, m);
      UnknownListLength(order[..|order| - 1], m);
    }
  }

  lemma UnknownOfSome(key: string, refs: seq<string>)
    requires ':' in key
    ensures UnknownOf(key, refs).Some?
  {
  }

  /** The entry for a binding that registered its node without a parent. */
  function UnknownEntryOf(b: IAMBinding): UnknownHierarchy {
    UnknownHierarchy(b.resourceID, b.resourceLevel, [b.terraformAddr])
  }

  /**
   * Whatever order the references are visited in, the unknown list holds one
   * entry per key, and each is the ID, level and address of the first binding
   * that registered the node without a parent.
   */
  lemma UnknownEntries(bs: seq<IAMBinding>, order: seq<string>, i: int)
    requires Enumerates(order, Registered(bs).unknownRefs.Keys)
    requires 0 <= i < |order|
    ensures |UnknownList(order, Registered(bs).unknownRefs)| == |order|
    ensures exists k ::
      UnknownFirst(bs, k, order[i]) && UnknownList(order, Registered(bs).unknownRefs)[i] == UnknownEntryOf(bs[k])
  {
    var m := Registered(bs).unknownRefs;
    assert forall k :: k in order ==> k in m;
    forall j | 0 <= j < |order|
      ensures UnknownOf(order[j], m[order[j]]).Some?
    {
      assert order[j] in order;
      RefKeyHasColon(bs, order[j]);
      UnknownOfSome(order[j], m[order[j]]);
    }
    UnknownListAt(order, m, i);
    var key := order[i];
    UnknownRefsFromFirst(bs, key);
    var k :| UnknownFirst(bs, k, key) && m[key] == [bs[k].terraformAddr];
    var b := bs[k];
    assert key == b.resourceLevel + [':'] + b.resourceID;
    LevelHasNoColon(b.resourceLevel);
    SplitN2Concat(b.resourceLevel, ':', b.resourceID);
  }

  /** Every unknown reference key is "type:id". */
  lemma RefKeyHasColon(bs: seq<IAMBinding>, key: string)
    requires key in Registered(bs).unknownRefs
    ensures ':' in key
  {
    UnknownRefsFromFirst(bs, key);
    var k :| UnknownFirst(bs, k, key);
    assert key == bs[k].resourceLevel + [':'] + bs[k].resourceID;
    assert key[|bs[k].resourceLevel|] == ':';
  }

  /** Every node registered without a parent below organization level is in the unknown list. */
  lemma UnknownComplete(bs: seq<IAMBinding>, order: seq<string>, k: int)
    requires Enumerates(order, Registered(bs).unknownRefs.Keys)
    requires FirstRegistering(bs, k) && ParentUnknown(bs[k])
    ensures UnknownEntryOf(bs[k]) in UnknownList(order, Registered(bs).unknownRefs)
  {
    var key := BindingKey(bs[k]);
    UnknownRefsFromFirst(bs, key);
    assert UnknownFirst(bs, k, key);
    assert key in (set w | w in order);
    var i :| 0 <= i < |order| && order[i] == key;
    UnknownEntries(bs, order, i);
    var k' :| UnknownFirst(bs, k', key) && UnknownList(order, Registered(bs).unknownRefs)[i] == UnknownEntryOf(bs[k']);
    FirstIsUnique(bs, k, k');
  }

  /** Two first registrations of the same key are the same binding. */
  lemma FirstIsUnique(bs: seq<IAMBinding>, k1: int, k2: int)
    requires FirstRegistering(bs, k1) && FirstRegistering(bs, k2) && BindingKey(bs[k1]) == BindingKey(bs[k2])
    ensures k1 == k2
  {
  }

  // ---------------------------------------------------------------------
  // Step 3: hierarchical access entries and warnings.

  /** The node's place in the hierarchy is known: it names a parent, or it is the organization. */
  predicate HierarchyKnown(b: IAMBinding)
    ensures HierarchyKnown(b) <==> !ParentUnknown(b)
    ensures b.resourceLevel == "organization" ==> HierarchyKnown(b)
  {
    b.parentID != "" || b.resourceLevel == "organization"
  }

  /** A hierarchy-level binding whose role is missing from the role table. */
  predicate RoleUnknown(b: IAMBinding, table: map<string, RoleHierarchy>) {
    IsHierarchyLevel(b.resourceLevel) && b.role !in table
  }

  /** A hierarchy-level binding whose role is in the table and which sits above the role's target level. */
  predicate Qualifies(b: IAMBinding, table: map<string, RoleHierarchy>) {
    IsHierarchyLevel(b.resourceLevel) && b.role in table && IsHigherLevel(b.resourceLevel, table[b.role].targetLevel)
  }

  /** A qualifying binding whose node has no known place in the hierarchy. */
  predicate ScopeUnknown(b: IAMBinding, table: map<string, RoleHierarchy>) {
    Qualifies(b, table) && !HierarchyKnown(b)
  }

  /** The entry for one member of a qualifying binding. */
  function EntryOf(b: IAMBinding, member: string, rh: RoleHierarchy): HierarchicalAccessEntry {
    HierarchicalAccessEntry(
      member, Impersonation.GetPrincipalType(member), b.role,
      Scope(b.resourceLevel, b.resourceID),
      Grants(GetAffectedLevels(b.resourceLevel), rh.resourceTypes, rh.displayName, rh.accessLevel),
      HierarchyKnown(b),
      Source(b.resourceType, b.terraformAddr))
  }

  /** One entry per member, in member order. */
  function EntriesFor(b: IAMBinding, members: seq<string>, rh: RoleHierarchy): (r: seq<HierarchicalAccessEntry>)
    ensures |r| == |members|
    ensures forall i :: 0 <= i < |members| ==> r[i] == EntryOf(b, members[i], rh)
  {
    if |members| == 0 then []
    else EntriesFor(b, members[..|members| - 1], rh) + [EntryOf(b, members[|members| - 1], rh)]
  }

  /**
   * The message formatted into each warning. It is determined by the
   * warning's type and fields, so the model computes it from them instead of
   * storing it.
   */
  function WarningMessage(w: Warning): string {
    if w.wtype == "unknown_role" then
      "Role '" + w.role + "' not found in definitions, hierarchical access cannot be determined"
    else
      "Hierarchy for " + w.scopeType + " '" + w.scopeID + "' is unknown, folder and org level bindings may also apply"
  }

  function RoleWarning(b: IAMBinding): Warning {
    Warning("unknown_role", b.role, "", "", b.terraformAddr)
  }

  function ScopeWarning(b: IAMBinding): Warning {
    Warning("unknown_hierarchy", "", b.resourceID, b.resourceLevel, "")
  }

  /** The role a binding marks as warned about: its own, when it is at hierarchy level and unknown to the table. */
  function NewRoles(b: IAMBinding, table: map<string, RoleHierarchy>): set<string> {
    if RoleUnknown(b, table) then {b.role} else {}
  }

  /** The scope key a binding marks as warned about: its own, when it qualifies and its hierarchy is unknown. */
  function NewScopes(b: IAMBinding, table: map<string, RoleHierarchy>): set<string> {
    if ScopeUnknown(b, table) then {BindingKey(b)} else {}
  }

  /** The entries a binding contributes: one per member when it qualifies, else none. */
  function NewEntries(b: IAMBinding, table: map<string, RoleHierarchy>): seq<HierarchicalAccessEntry> {
    if Qualifies(b, table) then EntriesFor(b, b.members, table[b.role]) else []
  }

  /** The roles warned about after the bindings `bs`: those of the hierarchy-level bindings with an unknown role. */
  function WarnedRoles(bs: seq<IAMBinding>, table: map<string, RoleHierarchy>): set<string> {
    if |bs| == 0 then {}
    else
      var b := bs[|bs| - 1];
      WarnedRoles(bs[..|bs| - 1], table) + NewRoles(b, table)
  }

  /** The scope keys warned about after the bindings `bs`. */
  function WarnedScopes(bs: seq<IAMBinding>, table: map<string, RoleHierarchy>): set<string> {
    if |bs| == 0 then {}
    else
      var b := bs[|bs| - 1];
      WarnedScopes(bs[..|bs| - 1], table) + NewScopes(b, table)
  }

  /** What a warning is about: a binding whose role is unknown, or one whose scope's hierarchy is unknown. */
  datatype WarningCause = RoleCause(b: IAMBinding) | ScopeCause(b: IAMBinding)

  function WarningOf(c: WarningCause): Warning {
    match c
    case RoleCause(b) => RoleWarning(b)
    case ScopeCause(b) => ScopeWarning(b)
  }

  /** The warning for each cause, in order. */
  function WarningsOf(cs: seq<WarningCause>): (r: seq<Warning>)
    ensures |r| == |cs|
    ensures forall i :: 0 <= i < |cs| ==> r[i] == WarningOf(cs[i])
  {
    if |cs| == 0 then [] else WarningsOf(cs[..|cs| - 1]) + [WarningOf(cs[|cs| - 1])]
  }

  /** The warning a binding causes, given the roles and scopes already warned about. */
  function NewCauses(b: IAMBinding, table: map<string, RoleHierarchy>, warnedRoles: set<string>, warnedScopes: set<string>): seq<WarningCause> {
    if RoleUnknown(b, table) && b.role !in warnedRoles then [RoleCause(b)]
    else if ScopeUnknown(b, table) && BindingKey(b) !in warnedScopes then [ScopeCause(b)]
    else []
  }

  /**
   * The causes of the warnings after the bindings `bs`: a binding with an
   * unknown role warns unless its role was warned about before; a qualifying
   * binding with an unknown scope warns unless its scope was warned about before.
   */
  function Causes(bs: seq<IAMBinding>, table: map<string, RoleHierarchy>): seq<WarningCause> {
    if |bs| == 0 then []
    else
      var init := bs[..|bs| - 1];
      var b := bs[|bs| - 1];
      Causes(init, table) + NewCauses(b, table, WarnedRoles(init, table), WarnedScopes(init, table))
  }

  function Warnings(bs: seq<IAMBinding>, table: map<string, RoleHierarchy>): seq<Warning> {
    WarningsOf(Causes(bs, table))
  }

  /**
   * The entries after the bindings `bs`. A binding below hierarchy level, one
   * with an unknown role, and one whose role's target level is not below the
   * scope contribute nothing; a qualifying binding contributes one entry per
   * member, whether or not its hierarchy is known.
   */
  function Entries(bs: seq<IAMBinding>, table: map<string, RoleHierarchy>): seq<HierarchicalAccessEntry> {
    if |bs| == 0 then []
    else
      var b := bs[|bs| - 1];
      Entries(bs[..|bs| - 1], table) + NewEntries(b, table)
  }

  lemma AccessSnoc(bs: seq<IAMBinding>, b: IAMBinding, table: map<string, RoleHierarchy>)
    ensures WarnedRoles(bs + [b], table) == WarnedRoles(bs, table) + NewRoles(b, table)
    ensures WarnedScopes(bs + [b], table) == WarnedScopes(bs, table) + NewScopes(b, table)
    ensures Causes(bs + [b], table) == Causes(bs, table) + NewCauses(b, table, WarnedRoles(bs, table), WarnedScopes(bs, table))
    ensures Entries(bs + [b], table) == Entries(bs, table) + NewEntries(b, table)
  {
    assert (bs + [b])[..|bs|] == bs;
  }

  lemma {:induction false} WarnedRolesExist(bs: seq<IAMBinding>, table: map<string, RoleHierarchy>, role: string)
    ensures role in WarnedRoles(bs, table) <==>
      exists k :: 0 <= k < |bs| && RoleUnknown(bs[k], table) && bs[k].role == role
  {
    if |bs| > 0 {
      var init := bs[..|bs| - 1];
      WarnedRolesExist(init, table, role);
      assert forall k :: 0 <= k < |init| ==> init[k] == bs[k];
    }
  }

  lemma {:induction false} WarnedScopesExist(bs: seq<IAMBinding>, table: map<string, RoleHierarchy>, key: string)
    ensures key in WarnedScopes(bs, table) <==>
      exists k :: 0 <= k < |bs| && ScopeUnknown(bs[k], table) && BindingKey(bs[k]) == key
  {
    if |bs| > 0 {
      var init := bs[..|bs| - 1];
      WarnedScopesExist(init, table, key);
      assert forall k :: 0 <= k < |init| ==> init[k] == bs[k];
    }
  }

  /** The first hierarchy-level binding with this unknown role. */
  ghost predicate FirstRoleUnknown(bs: seq<IAMBinding>, k: int, table: map<string, RoleHierarchy>) {
    0 <= k < |bs| && RoleUnknown(bs[k], table) &&
    forall j :: 0 <= j < k ==> !(RoleUnknown(bs[j], table) && bs[j].role == bs[k].role)
  }

  /** The first qualifying binding with this unknown scope. */
  ghost predicate FirstScopeUnknown(bs: seq<IAMBinding>, k: int, table: map<string, RoleHierarchy>) {
    0 <= k < |bs| && ScopeUnknown(bs[k], table) &&
    forall j :: 0 <= j < k ==> !(ScopeUnknown(bs[j], table) && BindingKey(bs[j]) == BindingKey(bs[k]))
  }

  /** A first occurrence in a prefix is one in the whole sequence, and conversely. */
  lemma FirstUnknownPrefix(bs: seq<IAMBinding>, b: IAMBinding, k: int, table: map<string, RoleHierarchy>)
    ensures FirstRoleUnknown(bs, k, table) <==> k < |bs| && FirstRoleUnknown(bs + [b], k, table)
    ensures FirstScopeUnknown(bs, k, table) <==> k < |bs| && FirstScopeUnknown(bs + [b], k, table)
  {
    assert forall j :: 0 <= j < |bs| ==> (bs + [b])[j] == bs[j];
  }

  /** Every cause is the first binding with that unknown role, or the first with that unknown scope. */
  lemma {:induction false} CauseFromFirst(bs: seq<IAMBinding>, table: map<string, RoleHierarchy>, i: int)
    requires 0 <= i < |Causes(bs, table)|
    ensures var c := Causes(bs, table)[i];
      exists k :: (FirstRoleUnknown(bs, k, table) && c == RoleCause(bs[k])) || (FirstScopeUnknown(bs, k, table) && c == ScopeCause(bs[k]))
  {
    var init := bs[..|bs| - 1];
    var b := bs[|bs| - 1];
    assert bs == init + [b];
    var cs0 := Causes(init, table);
    if i < |cs0| {
      CauseFromFirst(init, table, i);
      var k :| (FirstRoleUnknown(init, k, table) && cs0[i] == RoleCause(init[k])) ||
        (FirstScopeUnknown(init, k, table) && cs0[i] == ScopeCause(init[k]));
      FirstUnknownPrefix(init, b, k, table);
    } else {
      WarnedRolesExist(init, table, b.role);
      WarnedScopesExist(init, table, BindingKey(b));
      var k := |init|;
      assert bs[k] == b;
      if RoleUnknown(b, table) {
        assert FirstRoleUnknown(bs, k, table);
      } else {
        assert FirstScopeUnknown(bs, k, table);
      }
    }
  }

  /** The first binding with an unknown role, and the first with an unknown scope, each cause a warning. */
  lemma {:induction false} CauseComplete(bs: seq<IAMBinding>, table: map<string, RoleHierarchy>, k: int)
    ensures FirstRoleUnknown(bs, k, table) ==> RoleCause(bs[k]) in Causes(bs, table)
    ensures FirstScopeUnknown(bs, k, table) ==> ScopeCause(bs[k]) in Causes(bs, table)
  {
    if 0 <= k < |bs| {
      var init := bs[..|bs| - 1];
      var b := bs[|bs| - 1];
      assert bs == init + [b];
      FirstUnknownPrefix(init, b, k, table);
      if k < |init| {
        CauseComplete(init, table, k);
        assert init[k] == bs[k];
      } else {
        WarnedRolesExist(init, table, b.role);
        WarnedScopesExist(init, table, BindingKey(b));
        assert forall j :: 0 <= j < |init| ==> init[j] == bs[j];
      }
    }
  }

  /** No binding causes two warnings. */
  lemma {:induction false} CausesNoDup(bs: seq<IAMBinding>, table: map<string, RoleHierarchy>)
    ensures NoDup(Causes(bs, table))
  {
    if |bs| > 0 {
      var init := bs[..|bs| - 1];
      var b := bs[|bs| - 1];
      assert bs == init + [b];
      var cs0 := Causes(init, table);
      CausesNoDup(init, table);
      WarnedRolesExist(init, table, b.role);
      WarnedScopesExist(init, table, BindingKey(b));
      forall i | 0 <= i < |cs0|
        ensures cs0[i] != RoleCause(b) || b.role in WarnedRoles(init, table)
        ensures cs0[i] != ScopeCause(b) || BindingKey(b) in WarnedScopes(init, table)
      {
        CauseFromFirst(init, table, i);
      }
    }
  }

  /**
   * Every warning is an unknown_role warning for the first binding with that
   * role, or an unknown_hierarchy warning for the first binding with that scope.
   */
  lemma WarningFromFirst(bs: seq<IAMBinding>, table: map<string, RoleHierarchy>, i: int)
    requires 0 <= i < |Warnings(bs, table)|
    ensures var w := Warnings(bs, table)[i];
      exists k :: (FirstRoleUnknown(bs, k, table) && w == RoleWarning(bs[k])) || (FirstScopeUnknown(bs, k, table) && w == ScopeWarning(bs[k]))
  {
    CauseFromFirst(bs, table, i);
  }

  /** The first binding with an unknown role, and the first with an unknown scope, each have their warning. */
  lemma WarningComplete(bs: seq<IAMBinding>, table: map<string, RoleHierarchy>, k: int)
    ensures FirstRoleUnknown(bs, k, table) ==> RoleWarning(bs[k]) in Warnings(bs, table)
    ensures FirstScopeUnknown(bs, k, table) ==> ScopeWarning(bs[k]) in Warnings(bs, table)
  {
    CauseComplete(bs, table, k);
    var cs := Causes(bs, table);
    if FirstRoleUnknown(bs, k, table) {
      var p :| 0 <= p < |cs| && cs[p] == RoleCause(bs[k]);
      assert Warnings(bs, table)[p] == RoleWarning(bs[k]);
    }
    if FirstScopeUnknown(bs, k, table) {
      var p :| 0 <= p < |cs| && cs[p] == ScopeCause(bs[k]);
      assert Warnings(bs, table)[p] == ScopeWarning(bs[k]);
    }
  }

  /** At most one unknown_role warning per role, and at most one unknown_hierarchy warning per scope. */
  lemma WarningsUnique(bs: seq<IAMBinding>, table: map<string, RoleHierarchy>, i: int, j: int)
    requires 0 <= i < j < |Warnings(bs, table)|
    ensures var ws := Warnings(bs, table);
      (ws[i].wtype == "unknown_role" && ws[j].wtype == "unknown_role" ==> ws[i].role != ws[j].role) &&
      (ws[i].wtype == "unknown_hierarchy" && ws[j].wtype == "unknown_hierarchy" ==>
        (ws[i].scopeType, ws[i].scopeID) != (ws[j].scopeType, ws[j].scopeID))
  {
    var cs := Causes(bs, table);
    CausesNoDup(bs, table);
    CauseFromFirst(bs, table, i);
    CauseFromFirst(bs, table, j);
    var ki :| (FirstRoleUnknown(bs, ki, table) && cs[i] == RoleCause(bs[ki])) ||
      (FirstScopeUnknown(bs, ki, table) && cs[i] == ScopeCause(bs[ki]));
    var kj :| (FirstRoleUnknown(bs, kj, table) && cs[j] == RoleCause(bs[kj])) ||
      (FirstScopeUnknown(bs, kj, table) && cs[j] == ScopeCause(bs[kj]));
    assert cs[i] != cs[j];
    RoleScopeTypes();
  }

  /** The two warning types are different strings. */
  lemma RoleScopeTypes()
    ensures "unknown_role" != "unknown_hierarchy"
  {
    assert |"unknown_role"| != |"unknown_hierarchy"|;
  }

  /** Every entry comes from a qualifying binding and one of its members. */
  lemma {:induction false} EntrySource(bs: seq<IAMBinding>, table: map<string, RoleHierarchy>, i: int)
    requires 0 <= i < |Entries(bs, table)|
    ensures var e := Entries(bs, table)[i];
      exists k, m :: 0 <= k < |bs| && Qualifies(bs[k], table) && m in bs[k].members && e == EntryOf(bs[k], m, table[bs[k].role])
  {
    var init := bs[..|bs| - 1];
    var b := bs[|bs| - 1];
    if i < |Entries(init, table)| {
      EntrySource(init, table, i);
      var k, m :| 0 <= k < |init| && Qualifies(init[k], table) && m in init[k].members &&
        Entries(init, table)[i] == EntryOf(init[k], m, table[init[k].role]);
      assert bs[k] == init[k];
    } else {
      var m := b.members[i - |Entries(init, table)|];
      assert bs[|bs| - 1] == b;
    }
  }

  /** Every member of every qualifying binding has its entry, whether or not the scope's hierarchy is known. */
  lemma {:induction false} EntryComplete(bs: seq<IAMBinding>, table: map<string, RoleHierarchy>, k: int, m: string)
    requires 0 <= k < |bs| && Qualifies(bs[k], table) && m in bs[k].members
    ensures EntryOf(bs[k], m, table[bs[k].role]) in Entries(bs, table)
  {
    var init := bs[..|bs| - 1];
    var b := bs[|bs| - 1];
    if k < |init| {
      EntryComplete(init, table, k, m);
      assert init[k] == bs[k];
    } else {
      var p :| 0 <= p < |b.members| && b.members[p] == m;
      assert EntriesFor(b, b.members, table[b.role])[p] == EntryOf(b, m, table[b.role]);
    }
  }

  lemma EntriesForPrefix(b: IAMBinding, members: seq<string>, j: int, rh: RoleHierarchy)
    requires 0 <= j < |members|
    ensures EntriesFor(b, members[..j + 1], rh) == EntriesFor(b, members[..j], rh) + [EntryOf(b, members[j], rh)]
  {
    assert members[..j + 1][..j] == members[..j];
  }

  /** The member loop of the access loop: one entry per member of a qualifying binding. */
  method AddMemberEntries(entries0: seq<HierarchicalAccessEntry>, binding: IAMBinding, roleHierarchy: RoleHierarchy, hierarchyKnown: bool)
    returns (entries: seq<HierarchicalAccessEntry>)
    requires hierarchyKnown == HierarchyKnown(binding)
    ensures entries == entries0 + EntriesFor(binding, binding.members, roleHierarchy)
  {
    entries := entries0;
    var j := 0;
    while j < |binding.members|
      invariant 0 <= j <= |binding.members|
      invariant entries == entries0 + EntriesFor(binding, binding.members[..j], roleHierarchy)
    {
      var member := binding.members[j];
      EntriesForPrefix(binding, binding.members, j, roleHierarchy);
      var entry := HierarchicalAccessEntry(
        member, Impersonation.GetPrincipalType(member), binding.role,
        Scope(binding.resourceLevel, binding.resourceID),
        Grants(GetAffectedLevels(binding.resourceLevel), roleHierarchy.resourceTypes,
          roleHierarchy.displayName, roleHierarchy.accessLevel),
        hierarchyKnown,
        Source(binding.resourceType, binding.terraformAddr));
      entries := entries + [entry];
      j := j + 1;
    }
    assert binding.members[..j] == binding.members;
  }

  /** One pass of the access loop, stated as what the binding adds to each of the four values. */
  method AccessBinding(
    binding: IAMBinding, table: map<string, RoleHierarchy>,
    entries0: seq<HierarchicalAccessEntry>, warnings0: seq<Warning>, warnedRoles0: set<string>, warnedScopes0: set<string>)
    returns (entries: seq<HierarchicalAccessEntry>, warnings: seq<Warning>, warnedRoles: set<string>, warnedScopes: set<string>)
    ensures entries == entries0 + NewEntries(binding, table)
    ensures warnings == warnings0 + WarningsOf(NewCauses(binding, table, warnedRoles0, warnedScopes0))
    ensures warnedRoles == warnedRoles0 + NewRoles(binding, table)
    ensures warnedScopes == warnedScopes0 + NewScopes(binding, table)
  {
    entries, warnings, warnedRoles, warnedScopes := entries0, warnings0, warnedRoles0, warnedScopes0;
    if !IsHierarchyLevel(binding.resourceLevel) {
      return;
    }
    if binding.role !in table {
      if binding.role !in warnedRoles {
        warnedRoles := warnedRoles + {binding.role};
        warnings := warnings + [Warning("unknown_role", binding.role, "", "", binding.terraformAddr)];
      }
      return;
    }
    var roleHierarchy := table[binding.role];
    if !IsHigherLevel(binding.resourceLevel, roleHierarchy.targetLevel) {
      return;
    }
    var hierarchyKnown := binding.parentID != "" || binding.resourceLevel == "organization";
    var scopeKey := binding.resourceLevel + ":" + binding.resourceID;
    if !hierarchyKnown && scopeKey !in warnedScopes {
      warnedScopes := warnedScopes + {scopeKey};
      warnings := warnings + [Warning("unknown_hierarchy", "", binding.resourceID, binding.resourceLevel, "")];
    }
    entries := AddMemberEntries(entries, binding, roleHierarchy, hierarchyKnown);
  }

  lemma {:induction false} WarningsOfConcat(cs: seq<WarningCause>, ds: seq<WarningCause>)
    ensures WarningsOf(cs + ds) == WarningsOf(cs) + WarningsOf(ds)
  {
    if |ds| > 0 {
      var init := ds[..|ds| - 1];
      WarningsOfConcat(cs, init);
      assert (cs + ds)[..|cs + ds| - 1] == cs + init;
    }
  }

  /** The four values after one more binding of `bs`. */
  lemma AccessPrefix(bs: seq<IAMBinding>, i: int, table: map<string, RoleHierarchy>)
    requires 0 <= i < |bs|
    ensures var done := bs[..i];
      Entries(bs[..i + 1], table) == Entries(done, table) + NewEntries(bs[i], table) &&
      Warnings(bs[..i + 1], table) ==
        Warnings(done, table) + WarningsOf(NewCauses(bs[i], table, WarnedRoles(done, table), WarnedScopes(done, table))) &&
      WarnedRoles(bs[..i + 1], table) == WarnedRoles(done, table) + NewRoles(bs[i], table) &&
      WarnedScopes(bs[..i + 1], table) == WarnedScopes(done, table) + NewScopes(bs[i], table)
  {
    var done := bs[..i];
    assert bs[..i + 1] == done + [bs[i]];
    AccessSnoc(done, bs[i], table);
    WarningsOfConcat(Causes(done, table), NewCauses(bs[i], table, WarnedRoles(done, table), WarnedScopes(done, table)));
  }

  /** The access loop of AnalyzeHierarchy. */
  method AnalyzeAccess(bindings: seq<IAMBinding>, table: map<string, RoleHierarchy>)
    returns (entries: seq<HierarchicalAccessEntry>, warnings: seq<Warning>)
    ensures entries == Entries(bindings, table) && warnings == Warnings(bindings, table)
  {
    entries := [];
    warnings := [];
    var warnedScopes: set<string> := {};
    var warnedRoles: set<string> := {};
    var i := 0;
    while i < |bindings|
      invariant 0 <= i <= |bindings|
      invariant entries == Entries(bindings[..i], table) && warnings == Warnings(bindings[..i], table)
      invariant warnedRoles == WarnedRoles(bindings[..i], table) && warnedScopes == WarnedScopes(bindings[..i], table)
    {
      AccessPrefix(bindings, i, table);
      entries, warnings, warnedRoles, warnedScopes := AccessBinding(bindings[i], table, entries, warnings, warnedRoles, warnedScopes);
      i := i + 1;
    }
    assert bindings[..i] == bindings;
  }

  // ---------------------------------------------------------------------
  // Sorting by (Type, ID).

  datatype SortKey = SortKey(major: string, minor: string)

  /** The comparison of both sort.Slice calls: by type, then by ID. */
  predicate KeyLess(a: SortKey, b: SortKey) {
    if a.major != b.major then StrLess(a.major, b.major) else StrLess(a.minor, b.minor)
  }

  lemma KeyLessIsStrictTotalOrder(a: SortKey, b: SortKey, c: SortKey)
    ensures !KeyLess(a, a)
    ensures KeyLess(a, b) ==> !KeyLess(b, a)
    ensures KeyLess(a, b) && KeyLess(b, c) ==> KeyLess(a, c)
    ensures a != b ==> KeyLess(a, b) || KeyLess(b, a)
  {
    StrLessIrreflexive(a.minor);
    if a.major != b.major {
      StrLessTotal(a.major, b.major);
      if StrLess(a.major, b.major) { StrLessAsymmetric(a.major, b.major); }
    } else if a.minor != b.minor {
      StrLessTotal(a.minor, b.minor);
      if StrLess(a.minor, b.minor) { StrLessAsymmetric(a.minor, b.minor); }
    }
    if KeyLess(a, b) && KeyLess(b, c) {
      if a.major != b.major && b.major != c.major {
        StrLessTransitive(a.major, b.major, c.major);
        if a.major == c.major { StrLessAsymmetric(a.major, b.major); }
      } else if a.major == b.major && b.major == c.major {
        StrLessTransitive(a.minor, b.minor, c.minor);
      }
    }
  }

  /** "Not less" is transitive, since KeyLess is a strict total order. */
  lemma NotLessTransitive(c: SortKey, b: SortKey, a: SortKey)
    requires !KeyLess(c, b) && !KeyLess(b, a)
    ensures !KeyLess(c, a)
  {
    KeyLessIsStrictTotalOrder(a, b, c);
    KeyLessIsStrictTotalOrder(c, a, b);
  }

  predicate SortedBy<T>(s: seq<T>, key: T -> SortKey) {
    forall i, j :: 0 <= i < j < |s| ==> !KeyLess(key(s[j]), key(s[i]))
  }

  /** Inserting before the first element that is not less. */
  function Insert<T>(x: T, s: seq<T>, key: T -> SortKey): (r: seq<T>)
    ensures multiset(r) == multiset(s) + multiset{x}
  {
    if |s| == 0 then [x]
    else if !KeyLess(key(s[0]), key(x)) then [x] + s
    else
      assert s == [s[0]] + s[1..];
      [s[0]] + Insert(x, s[1..], key)
  }

  lemma {:induction false} InsertSorted<T>(x: T, s: seq<T>, key: T -> SortKey)
    requires SortedBy(s, key)
    ensures SortedBy(Insert(x, s, key), key)
  {
    if |s| > 0 {
      if !KeyLess(key(s[0]), key(x)) {
        InsertFront(x, s, key);
      } else {
        SortedTail(s, key);
        InsertSorted(x, s[1..], key);
        InsertBelow(x, s, key);
        ConsSorted(s[0], Insert(x, s[1..], key), key);
      }
    }
  }

  /** x goes first when the first element is not less than it. */
  lemma InsertFront<T>(x: T, s: seq<T>, key: T -> SortKey)
    requires SortedBy(s, key) && |s| > 0 && !KeyLess(key(s[0]), key(x))
    ensures SortedBy([x] + s, key)
  {
    forall j | 0 < j < |s|
      ensures !KeyLess(key(s[j]), key(x))
    {
      NotLessTransitive(key(s[j]), key(s[0]), key(x));
    }
    assert forall j :: 0 <= j < |s| ==> ([x] + s)[j + 1] == s[j];
  }

  /** No element of the insertion into the tail is less than the head. */
  lemma InsertBelow<T>(x: T, s: seq<T>, key: T -> SortKey)
    requires SortedBy(s, key) && |s| > 0 && KeyLess(key(s[0]), key(x))
    ensures forall e :: e in Insert(x, s[1..], key) ==> !KeyLess(key(e), key(s[0]))
  {
    var t := s[1..];
    var r1 := Insert(x, t, key);
    forall e | e in r1
      ensures !KeyLess(key(e), key(s[0]))
    {
      assert e in multiset(r1);
      if e == x {
        KeyLessIsStrictTotalOrder(key(s[0]), key(x), key(x));
      } else {
        assert e in multiset(t);
        var j :| 0 <= j < |t| && t[j] == e;
        assert s[j + 1] == e;
      }
    }
  }

  lemma ConsSorted<T>(h: T, t: seq<T>, key: T -> SortKey)
    requires SortedBy(t, key)
    requires forall e :: e in t ==> !KeyLess(key(e), key(h))
    ensures SortedBy([h] + t, key)
  {
    var r := [h] + t;
    forall i, j | 0 <= i < j < |r|
      ensures !KeyLess(key(r[j]), key(r[i]))
    {
      assert r[j] == t[j - 1];
      if i > 0 {
        assert r[i] == t[i - 1];
      }
    }
  }

  lemma SortedTail<T>(s: seq<T>, key: T -> SortKey)
    requires SortedBy(s, key) && |s| > 0
    ensures SortedBy(s[1..], key)
    ensures KeysDistinct(s, key) ==> KeysDistinct(s[1..], key)
  {
    var t := s[1..];
    forall i, j | 0 <= i < j < |t|
      ensures !KeyLess(key(t[j]), key(t[i]))
      ensures KeysDistinct(s, key) ==> key(t[i]) != key(t[j])
    {
      assert t[i] == s[i + 1] && t[j] == s[j + 1];
    }
  }

  /** The sort function standing for sort.Slice: sorted, and a permutation of its input. */
  function SortBy<T>(s: seq<T>, key: T -> SortKey): (r: seq<T>)
    ensures multiset(r) == multiset(s)
  {
    if |s| == 0 then []
    else
      assert s == [s[0]] + s[1..];
      Insert(s[0], SortBy(s[1..], key), key)
  }

  lemma {:induction false} SortBySorted<T>(s: seq<T>, key: T -> SortKey)
    ensures SortedBy(SortBy(s, key), key)
  {
    if |s| > 0 {
      SortBySorted(s[1..], key);
      InsertSorted(s[0], SortBy(s[1..], key), key);
    }
  }

  /** No two elements share a sort key. */
  predicate KeysDistinct<T>(s: seq<T>, key: T -> SortKey) {
    forall i, j :: 0 <= i < j < |s| ==> key(s[i]) != key(s[j])
  }

  /**
   * With distinct keys the sorted order is unique: any two sorted
   * permutations of the same elements are equal, so the order sort.Slice
   * happens to leave equal-comparing elements in cannot matter.
   */
  lemma {:induction false} SortedUnique<T>(a: seq<T>, b: seq<T>, key: T -> SortKey)
    requires SortedBy(a, key) && SortedBy(b, key) && multiset(a) == multiset(b) && KeysDistinct(a, key)
    ensures a == b
  {
    if |a| > 0 {
      assert |b| == |multiset(b)| == |multiset(a)| == |a|;
      SameHead(a, b, key);
      assert a == [a[0]] + a[1..] && b == [b[0]] + b[1..];
      assert multiset(a) == multiset{a[0]} + multiset(a[1..]);
      assert multiset(b) == multiset{b[0]} + multiset(b[1..]);
      assert multiset(a[1..]) == multiset(a) - multiset{a[0]};
      assert multiset(b[1..]) == multiset(b) - multiset{b[0]};
      SortedTail(a, key);
      SortedTail(b, key);
      SortedUnique(a[1..], b[1..], key);
    }
  }

  /** Two sorted permutations with distinct keys start with the same element. */
  lemma SameHead<T>(a: seq<T>, b: seq<T>, key: T -> SortKey)
    requires SortedBy(a, key) && SortedBy(b, key) && multiset(a) == multiset(b) && KeysDistinct(a, key)
    requires |a| > 0 && |b| > 0
    ensures a[0] == b[0]
  {
    assert a[0] in multiset(b);
    assert b[0] in multiset(a);
    var i :| 0 <= i < |b| && b[i] == a[0];
    var j :| 0 <= j < |a| && a[j] == b[0];
    if j > 0 && i > 0 {
      // Neither of a[0] and a[j] is less than the other, so their keys coincide.
      KeyLessIsStrictTotalOrder(key(a[0]), key(a[j]), key(a[0]));
      assert false;
    }
  }

  /** An element at two positions occurs at least twice. */
  lemma CountTwice<T>(s: seq<T>, i: int, j: int)
    ensures 0 <= i < j < |s| && s[i] == s[j] ==> multiset(s)[s[i]] >= 2
  {
    if 0 <= i < j < |s| && s[i] == s[j] {
      assert s == s[..j] + s[j..];
      assert s[..j][i] == s[i];
      assert s[j..][0] == s[j];
      assert multiset(s) == multiset(s[..j]) + multiset(s[j..]);
    }
  }

  /** With distinct keys no element occurs twice. */
  lemma DistinctOnce<T>(s: seq<T>, key: T -> SortKey, x: T)
    ensures KeysDistinct(s, key) ==> multiset(s)[x] <= 1
  {
    if KeysDistinct(s, key) {
      assert NoDup(s);
      NoDupCount(s, x);
    }
  }

  /** Distinct keys survive a permutation. */
  lemma PermKeysDistinct<T>(a: seq<T>, b: seq<T>, key: T -> SortKey)
    requires multiset(a) == multiset(b) && KeysDistinct(a, key)
    ensures KeysDistinct(b, key)
  {
    forall i, j | 0 <= i < j < |b|
      ensures key(b[i]) != key(b[j])
    {
      assert b[i] in multiset(a) && b[j] in multiset(a);
      var p :| 0 <= p < |a| && a[p] == b[i];
      var q :| 0 <= q < |a| && a[q] == b[j];
      CountTwice(b, i, j);
      DistinctOnce(a, key, b[i]);
      if p == q {
        assert false;
      }
    }
  }

  /** Sorting a sequence with distinct keys gives the sorted permutation with distinct keys. */
  lemma SortByDistinct<T>(s: seq<T>, key: T -> SortKey)
    requires KeysDistinct(s, key)
    ensures var r := SortBy(s, key);
      SortedBy(r, key) && multiset(r) == multiset(s) && KeysDistinct(r, key)
  {
    SortBySorted(s, key);
    PermKeysDistinct(s, SortBy(s, key), key);
  }

  function NodeSortKey(n: HierarchyNode): SortKey {
    SortKey(n.ntype, n.id)
  }

  function UnknownSortKey(u: UnknownHierarchy): SortKey {
    SortKey(u.utype, u.id)
  }

  // ---------------------------------------------------------------------
  // The whole analysis.

  /**
   * AnalyzeHierarchy: the node loop, the unknown list built in the map's
   * (arbitrary) order `order`, the access loop, and the two sorts.
   */
  method AnalyzeHierarchy(bindings: seq<IAMBinding>, table: map<string, RoleHierarchy>)
    returns (result: HierarchyAnalysisResult, ghost order: seq<string>)
    ensures Enumerates(order, Registered(bindings).unknownRefs.Keys)
    ensures result.nodes == SortBy(Registered(bindings).nodes, NodeSortKey)
    ensures result.unknown == SortBy(UnknownList(order, Registered(bindings).unknownRefs), UnknownSortKey)
    ensures result.hierarchicalAccess == Entries(bindings, table)
    ensures result.warnings == Warnings(bindings, table)
  {
    var nodes, unknownRefs := BuildNodes(bindings);
    var unknown;
    unknown, order := BuildUnknown(unknownRefs);
    var entries, warnings := AnalyzeAccess(bindings, table);
    result := HierarchyAnalysisResult(SortBy(nodes, NodeSortKey), SortBy(unknown, UnknownSortKey), entries, warnings);
  }

  /** The returned nodes are sorted by (Type, ID), are the registered nodes, and no (Type, ID) occurs twice. */
  lemma SortedNodes(bs: seq<IAMBinding>)
    ensures var ns := Registered(bs).nodes;
      var r := SortBy(ns, NodeSortKey);
      SortedBy(r, NodeSortKey) && multiset(r) == multiset(ns) && KeysDistinct(r, NodeSortKey)
  {
    var ns := Registered(bs).nodes;
    NodesUnique(bs);
    assert var ns2 := Registered(bs).nodes;
      forall i, j :: 0 <= i < j < |ns2| ==> (ns2[i].ntype, ns2[i].id) != (ns2[j].ntype, ns2[j].id);
    forall i, j | 0 <= i < j < |ns|
      ensures NodeSortKey(ns[i]) != NodeSortKey(ns[j])
    {
      var a, b := ns[i], ns[j];
      assert (a.ntype, a.id) != (b.ntype, b.id);
    }
    SortByDistinct(ns, NodeSortKey);
  }

  /** Whatever order the unknown references are visited in, no (Type, ID) occurs twice in the list. */
  lemma UnknownListDistinct(bs: seq<IAMBinding>, order: seq<string>)
    requires Enumerates(order, Registered(bs).unknownRefs.Keys)
    ensures KeysDistinct(UnknownList(order, Registered(bs).unknownRefs), UnknownSortKey)
  {
    var m := Registered(bs).unknownRefs;
    var l := UnknownList(order, m);
    if |order| > 0 {
      UnknownEntries(bs, order, 0);
    }
    forall i, j | 0 <= i < j < |l|
      ensures UnknownSortKey(l[i]) != UnknownSortKey(l[j])
    {
      UnknownEntries(bs, order, i);
      UnknownEntries(bs, order, j);
      var ki :| UnknownFirst(bs, ki, order[i]) && l[i] == UnknownEntryOf(bs[ki]);
      var kj :| UnknownFirst(bs, kj, order[j]) && l[j] == UnknownEntryOf(bs[kj]);
      assert order[i] != order[j];
    }
  }

  /**
   * The returned unknown list does not depend on the map's iteration order:
   * for any two visiting orders the sorted lists are equal, sorted by
   * (Type, ID), and free of repeated (Type, ID).
   */
  lemma SortedUnknownDeterministic(bs: seq<IAMBinding>, o1: seq<string>, o2: seq<string>)
    requires Enumerates(o1, Registered(bs).unknownRefs.Keys) && Enumerates(o2, Registered(bs).unknownRefs.Keys)
    ensures var r := SortBy(UnknownList(o1, Registered(bs).unknownRefs), UnknownSortKey);
      r == SortBy(UnknownList(o2, Registered(bs).unknownRefs), UnknownSortKey) &&
      SortedBy(r, UnknownSortKey) && KeysDistinct(r, UnknownSortKey)
  {
    var m := Registered(bs).unknownRefs;
    var l1 := UnknownList(o1, m);
    var l2 := UnknownList(o2, m);
    UnknownListDistinct(bs, o1);
    UnknownListDistinct(bs, o2);
    SameUnknownEntries(bs, o1, o2);
    SameUnknownEntries(bs, o2, o1);
    assert NoDup(l1) && NoDup(l2);
    NoDupSameElements(l1, l2);
    SortByDistinct(l1, UnknownSortKey);
    SortByDistinct(l2, UnknownSortKey);
    SortedUnique(SortBy(l1, UnknownSortKey), SortBy(l2, UnknownSortKey), UnknownSortKey);
  }

  /** Every entry of the list in one visiting order is in the list in any other. */
  lemma SameUnknownEntries(bs: seq<IAMBinding>, o1: seq<string>, o2: seq<string>)
    requires Enumerates(o1, Registered(bs).unknownRefs.Keys) && Enumerates(o2, Registered(bs).unknownRefs.Keys)
    ensures forall u :: u in UnknownList(o1, Registered(bs).unknownRefs) ==> u in UnknownList(o2, Registered(bs).unknownRefs)
  {
    var m := Registered(bs).unknownRefs;
    var l1 := UnknownList(o1, m);
    forall u | u in l1
      ensures u in UnknownList(o2, m)
    {
      var i :| 0 <= i < |l1| && l1[i] == u;
      if |o1| > 0 {
        UnknownEntries(bs, o1, 0);
      }
      UnknownEntries(bs, o1, i);
      var k :| UnknownFirst(bs, k, o1[i]) && l1[i] == UnknownEntryOf(bs[k]);
      UnknownComplete(bs, o2, k);
    }
  }
}
