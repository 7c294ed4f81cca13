# cloud-blast-radius-cli: a verified model of the access-graph and policy engine

This project models, in Dafny, the core of `blast-radius`. The tool reads the IAM
bindings of a Terraform configuration or plan and answers three questions:

- who can reach what;
- what a principal gains by impersonating service accounts;
- whether the resulting access obeys a set of organisational policies.

The model covers the following parts.

**Bindings from a plan** (`plan_parser.dfy`, `parser_utils.dfy`, `parser_types.dfy`)
- The definition table, where a later definition of the same resource type wins.
- Extraction of one `IAMBinding` per managed resource of a known type: members come from the singular field, then the string elements of the plural list. Parent-type inference is included.
- The recursive walk over a module tree: a module's own resources first, then its child modules in order.

**Direct access** (`analyzer.dfy`)
- The fold of the binding stream into one record per principal: role sets per resource, the Terraform address per role, and the resource types a project-level binding reaches.

**Hierarchy analysis** (`hierarchy.dfy`)
- The fixed order organization < folder < project < resource.
- Deduplicated hierarchy nodes, and nodes whose parent is unknown.
- Deduplicated `unknown_role` and `unknown_hierarchy` warnings.
- One hierarchical-access entry per qualifying binding and member.
- The final sort by (type, ID).

**Impersonation** (`impersonation.dfy`)
- Principal types and the service-account impersonation rule.
- The adjacency list built from impersonation-role bindings.
- The breadth-first search that collects, per resource, the roles a principal reaches through a chain of impersonations and does not already hold directly. The search is guarded by a visited set and by the chain so far.

**Rule tables** (`definitions.dfy`)
- The role table, the impersonation-role list and the (source type, target type) rules.
- The cache that `LoadRules` replaces.
- The impersonation predicate, which captures the rules at the moment it is created.

**Exclusions** (`config_matcher.dfy`)
- Exclusion rules whose fields are regular expressions; an empty field matches anything.

**Policies** (`policy_models.dfy`, `policy_matchers.dfy`, `policy_parser.dfy`, `policy_transitive.dfy`, `policy_effective.dfy`, `policy_validator.dfy`)
- The policy configuration and its structural checks, with exactly one payload block per policy.
- The pattern matchers.
- The six validators: role restriction, persona (required and forbidden bindings, transitive constraints), resource access, separation of duty, impersonation escalation and effective access.
- The dispatch over policy kinds.
- The report: violation and severity counters, compliant policies, and the longest impersonation depth found by a second breadth-first search.

**Modelling choices**
- Go's `filepath.Match` and `regexp.MatchString` are parameters `(pattern, text) -> bool`. Only what the code itself guarantees is used: `"*"` matches everything, and equal strings match.
- Go map iteration order is unspecified. Loops over maps pick their next key with `:|`. Their results are stated as multisets (`Bags.Bag`), or through ghost enumerations in some order, so nothing depends on the order.
- Maps the Go code mutates in place through pointers are Dafny map values. No two records are shared, so nothing is aliased.

## Model

| member | source | states |
|---|---|---|
| Util.SplitN2 | internal/analyzer/impersonation.go:30 | `strings.SplitN(s, ":", 2)`: one part exactly when the separator is absent, otherwise the text before the first separator and the rest, which rebuild the string |
| Util.SplitN2Concat | internal/policy/matchers.go:59 | splitting "a:b" with no separator in a gives [a, b] |
| Util.IndexOf | internal/analyzer/hierarchy.go:124 | the first position of the separator, and none exactly when it is absent |
| Util.Split | internal/analyzer/impersonation.go:120 | `strings.Split(s, "/")`: at least one part, and no part contains the separator |
| Util.SplitJoin | internal/analyzer/impersonation.go:120 | joining the parts with the separator gives back the string |
| Util.SplitCons | internal/analyzer/impersonation.go:120 | a leading separator-free segment is the first part |
| Util.StrLessTotal | internal/analyzer/hierarchy.go:207-220 | the byte-wise string order used by the sorts is total on distinct strings |
| Util.StrLessTransitive | internal/analyzer/hierarchy.go:207-220 | and transitive |
| Util.StrLessIrreflexive | internal/analyzer/hierarchy.go:207-220 | and irreflexive |
| Analyzer.ProcessDirectAccess | internal/analyzer/analyzer.go:46-58 | the resource record is created with the binding's type only on first sight, the role is added to the existing roles, an address is recorded for the role only when non-empty, hierarchical access is untouched |
| Analyzer.DirectAccessFrame | internal/analyzer/analyzer.go:46-58 | processing a binding leaves every other resource's record unchanged |
| Analyzer.HierarchicalStep | internal/analyzer/analyzer.go:60-76 | direct access is untouched; only a project IAM binding whose role has resource types changes anything, and then the project entry holds the old types plus the role's types |
| Analyzer.HierarchicalFrame | internal/analyzer/analyzer.go:60-76 | every other project's hierarchical entry is unchanged |
| Analyzer.ProcessHierarchicalAccess | internal/analyzer/analyzer.go:60-76 | the loop over the role's resource types produces exactly the hierarchical step |
| Analyzer.MemberGrants | internal/analyzer/analyzer.go:26 | one (binding, member) grant per member, in member order |
| Analyzer.Analyze | internal/analyzer/analyzer.go:22-44 | the result is the in-order fold of every member of every binding; its keys are exactly the binding members; every member holds its binding's role on its binding's resource |
| Analyzer.AnalyzeBinding | internal/analyzer/analyzer.go:26-40 | the inner loop applies the binding's members in order |
| Analyzer.ApplyMember | internal/analyzer/analyzer.go:27-39 | creating the principal record when absent and then applying both processing steps is one more grant of the fold |
| Analyzer.AnalyzeKeys | internal/analyzer/analyzer.go:25-33 | a principal is a key of the result iff it is a member of some binding |
| Analyzer.AnalyzeRolesRecorded | internal/analyzer/analyzer.go:25-54 | for every binding b and every member m of b, results[m] has b's resource and the role set contains b's role |
| Analyzer.FoldKeys | internal/analyzer/analyzer.go:28-33 | a principal appears in the fold iff some grant is for it |
| Analyzer.GrantRecorded | internal/analyzer/analyzer.go:47-54 | after the fold, every grant's member has a record for the grant's resource containing the grant's role |
| Analyzer.ApplyGrantDirect | internal/analyzer/analyzer.go:36 | one grant changes only the record of its own (member, resource), creating it with the grant's type or keeping the old type and adding the role |
| Analyzer.ApplyGrantHierarchical | internal/analyzer/analyzer.go:39 | one grant changes only its own member's entry for its own project, and only for a project IAM binding with resource types |
| Analyzer.FoldRecord | internal/analyzer/analyzer.go:46-57 | the record the fold leaves for (member, resource) equals the one computed from that pair's grants alone |
| Analyzer.RolesOnResource | internal/analyzer/analyzer.go:47-54 | a record for (m, r) exists iff some grant is for m on r, and its roles are exactly those grants' roles |
| Analyzer.TypeFromFirstGrant | internal/analyzer/analyzer.go:47-53 | a resource's type is the type of the first grant for that (principal, resource); later grants only add roles |
| Analyzer.AddressRecorded | internal/analyzer/analyzer.go:55-57 | an address is recorded for a role iff some grant for (m, r) with that role had a non-empty address |
| Analyzer.LastAddressWins | internal/analyzer/analyzer.go:55-57 | the recorded address for a role is the one of the last such grant |
| Analyzer.HierarchicalFromProjects | internal/analyzer/analyzer.go:60-75 | hierarchical access under project p exists iff some project IAM grant on p has a role with resource types |
| Analyzer.HierarchicalTypes | internal/analyzer/analyzer.go:67-73 | the types under project p are exactly the resource types of those grants' roles |
| Analyzer.RolesOnlyGrow | internal/analyzer/analyzer.go:54 | further bindings never remove a resource record or a role |
| Analyzer.ReprocessingIsIdempotent | internal/analyzer/analyzer.go:46-75 | processing the same member of the same binding twice in a row equals processing it once |
| Hierarchy.LevelHasNoColon | internal/analyzer/hierarchy.go:225-227 | no hierarchy level contains the key separator ':' |
| Hierarchy.IsHierarchyLevel | internal/analyzer/hierarchy.go:225-227 | the levels of the order table that sit above "resource" |
| Hierarchy.IsHigherLevel | internal/analyzer/hierarchy.go:230-237 | true exactly for the six pairs where both levels are in the order table and the first comes strictly before the second |
| Hierarchy.HigherLevelIsStrictOrder | internal/analyzer/hierarchy.go:77-82 | isHigherLevel is irreflexive, asymmetric, transitive, total on the four known levels, and false when either level is unknown |
| Hierarchy.GetAffectedLevels | internal/analyzer/hierarchy.go:240-251 | the levels returned are exactly those strictly below the scope, listed from the top down; an unknown scope gives none |
| Hierarchy.NodeKeyInjective | internal/analyzer/hierarchy.go:102 | a "type:id" key determines its level and ID when the level has no ':' |
| Hierarchy.RegisterNodes | internal/analyzer/hierarchy.go:100-112 | a hierarchy-level binding with an unseen key appends its node and marks the key seen; any other binding changes nothing |
| Hierarchy.KnownKeys | internal/analyzer/hierarchy.go:100-104 | a key is seen iff some hierarchy-level binding has it; every unknown reference has a seen key |
| Hierarchy.NodeFromFirst | internal/analyzer/hierarchy.go:103-111 | each node's ID and parent fields are those of the first binding that registered its key |
| Hierarchy.NodesUnique | internal/analyzer/hierarchy.go:100-112 | no two nodes share (Type, ID) |
| Hierarchy.NodesComplete | internal/analyzer/hierarchy.go:100-111 | every hierarchy-level binding has a node with its level and ID |
| Hierarchy.NodeLevel | internal/analyzer/hierarchy.go:101 | every node is at organization, folder or project level |
| Hierarchy.RegisterRefs | internal/analyzer/hierarchy.go:113-117 | a reference is added only when a new node is registered with an empty parent ID below organization level |
| Hierarchy.UnknownRefsFromFirst | internal/analyzer/hierarchy.go:113-117 | a key has unknown references iff its first registering binding is such a node, and the references are exactly that binding's address |
| Hierarchy.BuildNodes | internal/analyzer/hierarchy.go:99-120 | the node loop yields the registered nodes and unknown references |
| Hierarchy.BuildUnknown | internal/analyzer/hierarchy.go:122-132 | the list is built over the references in some enumeration of their keys (Go map order) |
| Hierarchy.UnknownListAt | internal/analyzer/hierarchy.go:123-131 | when every key splits at ':', the list has one entry per key, in visiting order |
| Hierarchy.UnknownOfSome | internal/analyzer/hierarchy.go:124-125 | a key containing ':' always splits into two parts |
| Hierarchy.UnknownEntries | internal/analyzer/hierarchy.go:113-132 | whatever the visiting order, each unknown entry is the ID, level and address of the first binding that registered its node without a parent |
| Hierarchy.RefKeyHasColon | internal/analyzer/hierarchy.go:115 | every unknown-reference key is "type:id" |
| Hierarchy.UnknownComplete | internal/analyzer/hierarchy.go:113-132 | every node registered without a parent below organization level has its unknown entry |
| Hierarchy.FirstIsUnique | internal/analyzer/hierarchy.go:103 | a key has at most one first registering binding |
| Hierarchy.EntriesFor | internal/analyzer/hierarchy.go:181-203 | one entry per member, in member order |
| Hierarchy.WarningsOf | internal/analyzer/hierarchy.go:149-177 | one warning per cause, in order |
| Hierarchy.AccessSnoc | internal/analyzer/hierarchy.go:139-204 | one more binding adds exactly its entries, its new warned roles, its new warned scopes and its warnings |
| Hierarchy.WarnedRolesExist | internal/analyzer/hierarchy.go:144-148 | a role is warned about iff some hierarchy-level binding has it and it is not in the role table |
| Hierarchy.WarnedScopesExist | internal/analyzer/hierarchy.go:166-171 | a scope is warned about iff some qualifying binding has that key and an unknown hierarchy |
| Hierarchy.CauseFromFirst | internal/analyzer/hierarchy.go:144-178 | every warning cause is the first binding with that unknown role or the first qualifying binding with that unknown scope |
| Hierarchy.CauseComplete | internal/analyzer/hierarchy.go:144-178 | both kinds of first binding do cause a warning |
| Hierarchy.CausesNoDup | internal/analyzer/hierarchy.go:144-178 | no binding causes two warnings of the same kind |
| Hierarchy.WarningFromFirst | internal/analyzer/hierarchy.go:144-178 | every warning is an unknown_role warning for the first binding with that role or an unknown_hierarchy warning for the first binding with that scope |
| Hierarchy.WarningComplete | internal/analyzer/hierarchy.go:144-178 | those first bindings each have their warning |
| Hierarchy.WarningsUnique | internal/analyzer/hierarchy.go:144-178 | at most one unknown_role warning per role and one unknown_hierarchy warning per scope |
| Hierarchy.EntrySource | internal/analyzer/hierarchy.go:139-203 | every entry comes from a hierarchy-level binding with a known role above the role's target level, and one of its members |
| Hierarchy.HierarchyKnown | internal/analyzer/hierarchy.go:166 | known exactly when the node is not one step 1 records as parentless; an organization is always known |
| Hierarchy.EntryComplete | internal/analyzer/hierarchy.go:161-203 | every member of such a binding has its entry, whether or not the scope's hierarchy is known |
| Hierarchy.AddMemberEntries | internal/analyzer/hierarchy.go:181-203 | the member loop appends one entry per member |
| Hierarchy.AccessBinding | internal/analyzer/hierarchy.go:140-203 | one pass of the access loop adds exactly the binding's entries, warnings and warned roles and scopes |
| Hierarchy.WarningsOfConcat | internal/analyzer/hierarchy.go:149-177 | warnings of a concatenation are the concatenation of warnings |
| Hierarchy.AccessPrefix | internal/analyzer/hierarchy.go:139-204 | the four loop values after one more binding |
| Hierarchy.AnalyzeAccess | internal/analyzer/hierarchy.go:134-204 | the access loop yields the specified entries and warnings |
| Hierarchy.KeyLessIsStrictTotalOrder | internal/analyzer/hierarchy.go:207-219 | the (Type, ID) comparator is a strict total order |
| Hierarchy.Insert | internal/analyzer/hierarchy.go:207-219 | inserting adds exactly one occurrence of the element |
| Hierarchy.InsertSorted | internal/analyzer/hierarchy.go:207-219 | inserting into a sorted list keeps it sorted |
| Hierarchy.SortBy | internal/analyzer/hierarchy.go:207-219 | the sort is a permutation of its input |
| Hierarchy.SortBySorted | internal/analyzer/hierarchy.go:207-219 | the sort's output is sorted by (Type, ID) |
| Hierarchy.SortedUnique | internal/analyzer/hierarchy.go:207-219 | with distinct keys, any two sorted permutations of the same elements are equal |
| Hierarchy.SortByDistinct | internal/analyzer/hierarchy.go:207-219 | sorting keeps keys distinct |
| Hierarchy.AnalyzeHierarchy | internal/analyzer/hierarchy.go:85-222 | the result is the sorted registered nodes, the sorted unknown list built in some order of the map, and the specified entries and warnings |
| Hierarchy.SortedNodes | internal/analyzer/hierarchy.go:100-212 | the returned nodes are sorted by (Type, ID), are a permutation of the registered nodes, and no (Type, ID) repeats |
| Hierarchy.UnknownListDistinct | internal/analyzer/hierarchy.go:113-132 | whatever the visiting order, no (Type, ID) repeats in the unknown list |
| Hierarchy.SortedUnknownDeterministic | internal/analyzer/hierarchy.go:122-132 | after the sort, the unknown list is the same for every visiting order of the map and has no repeated (Type, ID) |
| Hierarchy.SameUnknownEntries | internal/analyzer/hierarchy.go:122-132 | the unknown list holds the same entries in every visiting order |
| Impersonation.GetPrincipalType | internal/analyzer/impersonation.go:29-35 | "unknown" when there is no ':'; otherwise a colon-free prefix that, followed by ':', starts the principal |
| Impersonation.PrincipalTypeOf | internal/analyzer/impersonation.go:29-35 | the type of "t:rest" is t for any colon-free t |
| Impersonation.CanImpersonate | internal/analyzer/impersonation.go:38-62 | true iff the target is a service account and the source is a service account, user, group or principal set |
| Impersonation.ExtractServiceAccountEmail | internal/analyzer/impersonation.go:119-129 | the fourth '/'-segment of a projects/P/serviceAccounts/E path; otherwise the ID itself when it contains '@', else "" |
| Impersonation.ExtractFromPath | internal/analyzer/impersonation.go:119-123 | projects/P/serviceAccounts/E yields E |
| Impersonation.ExtractFromLongerPath | internal/analyzer/impersonation.go:119-123 | segments after the email do not change the result |
| Impersonation.ExtractPlainId | internal/analyzer/impersonation.go:124-128 | an ID without '/' is returned unchanged if it contains '@', else "" |
| Impersonation.MatchesPrincipalEmail | internal/analyzer/impersonation.go:239-245 | false without ':'; otherwise true iff the text after the first ':' ends with the email; a match implies the whole principal ends with the email |
| Impersonation.MatchesOwnEmail | internal/analyzer/impersonation.go:244 | "t:email" matches email |
| Impersonation.MatchesLongerAddress | internal/analyzer/impersonation.go:244 | the suffix test also accepts a longer address ending in the email |
| Impersonation.EdgesSelected | internal/analyzer/impersonation.go:75-111 | the edges are the grants passing the binding and member checks, in order |
| Impersonation.AddEdge | internal/analyzer/impersonation.go:107-110 | appends the target to the source's list, creating it when absent, and leaves every other list unchanged |
| Impersonation.TargetIsServiceAccount | internal/analyzer/impersonation.go:89-90 | the target principal has the "serviceAccount:" prefix and type serviceAccount |
| Impersonation.BuildImpersonationGraphWithFunc | internal/analyzer/impersonation.go:70-115 | the graph is the adjacency list of the qualifying (binding, member) edges in order |
| Impersonation.BuildImpersonationGraph | internal/analyzer/impersonation.go:64-66 | the graph under the built-in rule: every edge leads from a user, group, principal set or service account to a different service account |
| Impersonation.AddBindingEdges | internal/analyzer/impersonation.go:76-111 | a binding without an impersonation role or a service-account target adds nothing; otherwise its members' edges |
| Impersonation.AddMemberEdges | internal/analyzer/impersonation.go:93-111 | the member loop adds the edges of the binding's members in order |
| Impersonation.AddMemberEdge | internal/analyzer/impersonation.go:94-110 | a member's edge is added iff its type may impersonate the target and it is not the target |
| Impersonation.AppendTarget | internal/analyzer/impersonation.go:107-110 | adds exactly one edge |
| Impersonation.MemberEdgeStep | internal/analyzer/impersonation.go:94-110 | the edges after one more member |
| Impersonation.NoEdges | internal/analyzer/impersonation.go:77-86 | bindings failing the binding-level checks contribute no edges |
| Impersonation.AdjacencyEdges | internal/analyzer/impersonation.go:107-110 | a -> t is in the graph iff it is one of the edges; every key has at least one target |
| Impersonation.EdgeSource | internal/analyzer/impersonation.go:75-111 | each edge comes from a grant passing every check |
| Impersonation.EdgeComplete | internal/analyzer/impersonation.go:75-111 | every grant passing every check contributes its edge |
| Impersonation.GraphEdges | internal/analyzer/impersonation.go:75-111 | every edge a -> t comes from a member a of an impersonation-role binding on service account t with canImpersonate(type(a), type(t)) and a != t; conversely every such member has its edge |
| Impersonation.GraphEdgesSound | internal/analyzer/impersonation.go:75-111 | the soundness half of GraphEdges |
| Impersonation.GraphEdgesComplete | internal/analyzer/impersonation.go:75-111 | the completeness half of GraphEdges |
| Impersonation.DuplicateEdgesKept | internal/analyzer/impersonation.go:110 | the same edge twice gives the target twice: duplicates are kept |
| Impersonation.NewRoles | internal/analyzer/impersonation.go:199-211 | exactly the resource's roles the root does not hold directly on that resource |
| Impersonation.NothingNovelFromSelf | internal/analyzer/impersonation.go:199-214 | a principal's own access adds no entry for it |
| Impersonation.MergeTargetAccess | internal/analyzer/impersonation.go:197-224 | each resource of the target with roles new to the root is overwritten with those roles, the target's type and the chain; every other entry is kept |
| Impersonation.AnalyzeTransitiveAccess | internal/analyzer/impersonation.go:132-236 | None iff no principal matches the email; otherwise a matching principal, its direct access, and entries whose chains are non-empty repeat-free walks ending at a principal holding those new roles; the expanded principals are each expanded once, all reachable, closed under edges, and every resource on which any principal reachable from the root holds a role new to the root has an entry |
| Impersonation.ReachableInClosed | internal/analyzer/impersonation.go:163-229 | a set holding the root and closed under impersonation edges holds every principal a walk from the root reaches |
| Impersonation.Search | internal/analyzer/impersonation.go:154-233 | the breadth-first loop terminates with the same facts for the matched principal |
| Impersonation.SearchStart | internal/analyzer/impersonation.go:155-161 | the loop invariant holds for the initial queue |
| Impersonation.SearchDone | internal/analyzer/impersonation.go:163 | an empty queue gives everything Search promises |
| Impersonation.SearchStep | internal/analyzer/impersonation.go:164-232 | one turn keeps the invariants, the breadth-first order included, and shrinks (unvisited principals, queue length) lexicographically |
| Impersonation.PopVisitedInv | internal/analyzer/impersonation.go:167-170 | skipping a visited head keeps the invariant |
| Impersonation.VisitInv | internal/analyzer/impersonation.go:171 | visiting a new head shrinks the unvisited principals |
| Impersonation.NoTargetsInv | internal/analyzer/impersonation.go:174-177 | a principal without edges needs no expansion |
| Impersonation.ExpandedInv | internal/analyzer/impersonation.go:179-232 | once all targets are queued or visited the invariant holds again |
| Impersonation.SearchComplete | internal/analyzer/impersonation.go:163-233 | at the end every expanded principal's novel roles have entries |
| Impersonation.ExpandTargets | internal/analyzer/impersonation.go:179-232 | a target on the chain is skipped; every other target's access is merged under the extended chain and the target is queued |
| Impersonation.MergeKeepsInv | internal/analyzer/impersonation.go:196-224 | merging a queued target keeps every entry valid |
| Impersonation.AppendKeepsInv | internal/analyzer/impersonation.go:227-231 | queueing a valid item keeps the search facts |
| Impersonation.PopKeepsInv | internal/analyzer/impersonation.go:164-171 | popping the head keeps the search facts |
| Impersonation.ReachableFromItem | internal/analyzer/impersonation.go:193-194 | every queued principal is reachable from the root |
| Impersonation.ChainVisited | internal/analyzer/impersonation.go:182-187 | every principal on an expanded item's chain has been visited |
| Impersonation.NewItemOk | internal/analyzer/impersonation.go:180-194 | extending a chain by an edge to a principal not on it keeps it a repeat-free walk |
| Definitions.ResourceTypesForRole | internal/definitions/hierarchy.go:67-75 | the role's resource types, or none for a role not in the table |
| Definitions.IsImpersonationRole | internal/definitions/hierarchy.go:78-88 | true iff the role is in the list; false for an empty list |
| Definitions.CanImpersonateFunc | internal/definitions/hierarchy.go:91-107 | the returned predicate holds for (s, t) iff some rule has SourceType s and TargetType t |
| Definitions.NoRulesNoImpersonation | internal/definitions/hierarchy.go:93-106 | with no rules the predicate is constantly false |
| Definitions.RuleCache.constructor | internal/definitions/hierarchy.go:34-38 | all three caches start empty |
| Definitions.RuleCache.LoadRules | internal/definitions/hierarchy.go:41-64 | a read or decode failure returns the wrapped message and leaves every cache untouched; success replaces all three caches together |
| Definitions.RuleCache.GetResourceTypesForRole | internal/definitions/hierarchy.go:67-75 | none for a role not in the cache, the cached types otherwise |
| Definitions.RuleCache.HoldsImpersonationRole | internal/definitions/hierarchy.go:78-88 | true iff the role is in the cached list |
| Definitions.RuleCache.GetCanImpersonateFunc | internal/definitions/hierarchy.go:91-107 | the predicate over the currently cached rules |
| Definitions.SnapshotSurvivesReload | internal/definitions/hierarchy.go:93-106 | a predicate built before a reload answers from the rules cached when it was built |
| ParserUtils.DetermineParentType | internal/parser/utils.go:7-27 | "folders/" gives folder and "organizations/" gives organization at any level; otherwise folder gives organization, project with a parent gives folder, resource gives project; the result is empty exactly in the remaining cases |
| ParserUtils.DetermineParentTypeTable | internal/parser/utils.go:7-27 | the cases of the package's own test table |
| ParserUtils.GetStringFromMap | internal/parser/utils.go:42-49 | the string under the key; a non-empty result is a string value under that key |
| ParserUtils.StringElems | internal/parser/utils.go:57-61 | a string is in the result iff it is a string element of the list |
| ParserUtils.StringElemsAppend | internal/parser/utils.go:57-61 | one more element adds itself iff it is a string, keeping order |
| ParserUtils.GetListFromMap | internal/parser/utils.go:53-65 | the string elements of a list value under the key, in order; nothing otherwise |
| PlanParser.DefMapLastWins | internal/parser/plan_parser.go:49-52 | a type is in the table iff some definition has it, and the last such definition wins |
| PlanParser.BuildDefMap | internal/parser/plan_parser.go:49-52 | the loop builds that table |
| PlanParser.MappedMembers | internal/parser/plan_parser.go:121-141 | every member is the singular string attribute or a string element of the plural list |
| PlanParser.ExtractBindingFromResource | internal/parser/plan_parser.go:97-182 | type and address from the resource; resource ID, role and parent ID from their field-mapped string attributes; level defaulting to "resource", members singular-then-plural, parent type from the level alone; no error iff resource ID, role and members are all present, with "missing resource ID" checked first, then "missing role" |
| PlanParser.ExtractFromResources | internal/parser/plan_parser.go:66-86 | each binding comes from a managed resource of a known type whose extraction succeeded |
| PlanParser.ResourcesComplete | internal/parser/plan_parser.go:66-86 | every managed resource of a known type whose extraction succeeds contributes its binding; failing ones are skipped, not fatal |
| PlanParser.SkippedResource | internal/parser/plan_parser.go:68-76 | an unmanaged resource or one of an unknown type contributes nothing |
| PlanParser.ExtractBindingsFromModule | internal/parser/plan_parser.go:62-94 | the module's own bindings, then each child's recursively; every binding is well formed and of a defined type |
| PlanParser.ExtractFromChildren | internal/parser/plan_parser.go:89-91 | the child modules' bindings in order, each well formed |
| PlanParser.ParsePlan | internal/parser/plan_parser.go:48-58 | the root module's bindings over the definition table; every binding's type is defined |
| PlanParser.PlanParentTypeIgnoresPrefix | internal/parser/plan_parser.go:159-168 | a project under "organizations/123" gets parent type folder here, whereas DetermineParentType gives organization |
| PlanParser.PlanParentType | internal/parser/plan_parser.go:158-168 | organization above a folder, project above a resource, folder above a project with a parent ID, and no parent type in every other case |
| ConfigMatcher.IsExcluded | internal/config/matcher.go:8-15 | true iff some rule matches |
| ConfigMatcher.MatchRule | internal/config/matcher.go:17-35 | the rule matches iff every non-empty field's expression matches its value; a failing non-empty field rejects it |
| ConfigMatcher.EmptyRuleMatchesEverything | internal/config/matcher.go:17-35 | a rule with every field empty excludes every binding whatever the regex engine does |
| ConfigMatcher.ExclusionMonotone | internal/config/matcher.go:8-15 | adding rules before or after never un-excludes a binding |
| PolicyModels.TagInjective | internal/policy/models.go:157-167 | the nine violation tags and "unknown_type" are pairwise different |
| PolicyModels.MessageText | internal/policy/models.go:148 | every violation carries a non-empty message |
| PolicyModels.Remediation | internal/policy/validator.go:92-97 | every violation has a remediation except the unknown-type one |
| PolicyMatchers.Matches | internal/policy/matchers.go:9-54 | true exactly when the pattern is "*", a glob of it matches the string, or it equals the string |
| PolicyMatchers.IsRoleIn | internal/policy/matchers.go:77-84 | true iff some listed role matches; false on an empty list |
| PolicyMatchers.IsPrincipalIn | internal/policy/matchers.go:87-94 | true iff some listed pattern matches; false on an empty list |
| PolicyMatchers.ListedIsIn | internal/policy/matchers.go:77-94 | a listed string, or "*" in the list, is always in the list |
| PolicyMatchers.ExtractPrincipalEmail | internal/policy/matchers.go:58-64 | the input without ':' unchanged; otherwise the suffix after the first ':' |
| PolicyMatchers.GetPrincipalType | internal/policy/matchers.go:68-74 | "unknown" without ':'; otherwise the colon-free prefix before it |
| PolicyMatchers.TypeAndEmailRebuild | internal/policy/matchers.go:58-74 | for p containing ':', type + ":" + email == p |
| PolicyMatchers.TypeAndEmailSplit | internal/policy/matchers.go:58-74 | "t:e" splits back into t and e |
| PolicyMatchers.PrincipalTypeAgrees | internal/policy/matchers.go:68-74 | agrees with the analyzer's GetPrincipalType on every principal |
| PolicyParser.PolicyError | internal/policy/parser.go:46-61 | no error iff the policy has a name, a type and an empty or recognised severity |
| PolicyParser.FirstPolicyError | internal/policy/parser.go:45-62 | no error iff every remaining policy is acceptable; otherwise the error of the first failing one |
| PolicyParser.ValidatePolicyConfig | internal/policy/parser.go:36-65 | an empty cloud provider, then no policies, then the first bad policy decide the error; no error iff all checks pass |
| PolicyParser.WithStep | internal/policy/parser.go:74-91 | counting one more block keeps the list repeat-free and adds the block iff present |
| PolicyParser.PayloadBlocksCarried | internal/policy/parser.go:73-91 | a block kind is listed iff the policy carries it |
| PolicyParser.PayloadBlocksNoDup | internal/policy/parser.go:73-91 | no block is listed twice |
| PolicyParser.CountBlock | internal/policy/parser.go:74-76 | one increment counts one present block |
| PolicyParser.CountPayloads | internal/policy/parser.go:73-91 | typeFieldCount is the number of blocks carried |
| PolicyParser.NormalizePolicies | internal/policy/parser.go:68-102 | succeeds iff every policy has exactly one block, otherwise the first policy without or with several |
| PolicyParser.BlockNotCheckedAgainstType | internal/policy/parser.go:73-98 | a persona policy whose single block is role_restriction passes |
| PolicyParser.LoadPolicies | internal/policy/parser.go:22-32 | validation first, then normalisation; the first failing check decides the wrapped error; on success the config is returned unchanged |
| PolicyParser.EmptySeverityAccepted | internal/policy/parser.go:54-56 | an empty severity passes and is not written back |
| PolicyTransitive.TransitiveAccessOf | internal/policy/transitive.go:149-150 | the analysis for the principal's email: sound entries, and an entry for every resource on which a principal reachable from the matched root holds a role new to it |
| PolicyTransitive.ReachedHasEntry | internal/policy/transitive.go:149-150 | a resource on which a principal reachable from the matched root holds a role new to it is in the returned transitive access |
| PolicyTransitive.RequiredViolations | internal/policy/transitive.go:43-93 | at most one violation per required binding; a principal without direct access gets one per required binding |
| PolicyTransitive.RequiredViolationsIff | internal/policy/transitive.go:47-90 | a missing_role violation is raised for a required binding iff the principal is absent or no resource matches the pattern, the type (when non-empty) and the role |
| PolicyTransitive.RequiredKinds | internal/policy/transitive.go:51-58 | missing-binding violations are missing_role and carry no policy name or severity |
| PolicyTransitive.FindRequired | internal/policy/transitive.go:64-78 | the search with break finds a resource iff one satisfies the required binding |
| PolicyTransitive.CheckRequiredBindings | internal/policy/transitive.go:43-93 | the loop yields exactly the specified missing_role violations, in required-binding order |
| PolicyTransitive.ForbiddenOnResource | internal/policy/transitive.go:107-136 | on one resource: every held role for role "*", else the forbidden role if held, when the pattern and type filter apply |
| PolicyTransitive.ForbiddenOnPrincipal | internal/policy/transitive.go:106-137 | the union over the principal's resources, in any map order |
| PolicyTransitive.CheckForbiddenBindings | internal/policy/transitive.go:96-141 | the union over the forbidden bindings; nothing for a principal without direct access |
| PolicyTransitive.WildcardRoleFlagsEveryRole | internal/policy/transitive.go:115-126 | role "*" flags every held role on each matching resource |
| PolicyTransitive.ForbiddenSound | internal/policy/transitive.go:96-141 | every forbidden_role violation names a role the principal holds directly on a resource whose pattern and type ("" or "*" match any) the binding applies to, and carries no policy name or severity |
| PolicyTransitive.LongestChain | internal/policy/transitive.go:223-233 | the length of the longest chain among the entries, 0 when there are none |
| PolicyTransitive.LongestChainUnique | internal/policy/transitive.go:223-233 | that length is unique |
| PolicyTransitive.CalculateTransitiveDepth | internal/policy/transitive.go:223-233 | the loop computes the longest chain length |
| PolicyTransitive.DepthFires | internal/policy/transitive.go:157-165 | at most one depth violation, raised iff some chain is longer than the allowed depth (or that depth is negative) |
| PolicyTransitive.DisallowedCount | internal/policy/transitive.go:204-205 | a disallowed target is kept as often as it occurs among the edges, an allowed one never |
| PolicyTransitive.TargetsFlaggedCount | internal/policy/transitive.go:204-214 | each target is flagged as often as it is listed |
| PolicyTransitive.TargetViolationsCount | internal/policy/transitive.go:202-217 | one violation per disallowed direct edge of the principal, duplicates included, and none without an allow list or edges |
| PolicyTransitive.FindForbiddenResource | internal/policy/transitive.go:184-198 | the search with break hits iff some forbidden resource pattern and type match |
| PolicyTransitive.TransitiveOnResource | internal/policy/transitive.go:168-199 | one reached resource raises the role violations of its forbidden roles and at most one resource violation |
| PolicyTransitive.TransitiveRoles | internal/policy/transitive.go:169-181 | one transitive_role violation per role matching the forbidden transitive roles |
| PolicyTransitive.CheckTargets | internal/policy/transitive.go:202-217 | the loop yields the specified target violations in edge order |
| PolicyTransitive.ValidateTransitiveAccess | internal/policy/transitive.go:144-220 | computed from a complete analysis for the principal's email; the violations are, in any map order, the depth, role, resource and target violations |
| PolicyTransitive.ReachedForbiddenResourceRaised | internal/policy/transitive.go:183-199 | a resource on which a principal reachable by impersonation holds a new role, matched by a type-free forbidden transitive resource, is reported with its chain |
| PolicyTransitive.CheckDepth | internal/policy/transitive.go:157-165 | exactly the depth violations |
| PolicyTransitive.TransitiveOnResources | internal/policy/transitive.go:168-199 | the union over the reached resources, in any map order |
| PolicyTransitive.TransitiveResourceAtMostOnce | internal/policy/transitive.go:184-198 | a reached resource raises the forbidden-resource violation at most once, because of the break |
| PolicyTransitive.TransRoleKinds | internal/policy/transitive.go:168-199 | every violation of one resource names that resource, and is transitive_role (for a held role) or transitive_resource |
| PolicyTransitive.StampPolicy | internal/policy/transitive.go:31-34 | every violation gets the policy's name and severity, nothing else changes |
| PolicyTransitive.TransitiveBagKinds | internal/policy/transitive.go:144-220 | the transitive checks raise only depth, transitive_role and transitive_resource violations |
| PolicyTransitive.StampedNamed | internal/policy/transitive.go:29-35 | after stamping, every transitive violation carries the policy's name and severity |
| PolicyTransitive.PersonaPrincipal | internal/policy/transitive.go:20-36 | one principal contributes its required, forbidden and (when enabled and constrained) stamped transitive violations, the last from a complete analysis of its email |
| PolicyTransitive.ValidatePersona | internal/policy/transitive.go:11-40 | none without a persona block; otherwise each principal's part in listed order, each from a complete analysis, and only transitive violations carry the policy's name and severity |
| PolicyTransitive.CollectRoles | internal/policy/transitive.go:254-259 | every role the principal holds directly, on any resource |
| PolicyTransitive.EscalateToRoles | internal/policy/transitive.go:269-282 | one violation per matching role on one reached resource |
| PolicyTransitive.EscalateVia | internal/policy/transitive.go:268-283 | the union over the reached resources |
| PolicyTransitive.EscalateByRole | internal/policy/transitive.go:264-286 | for a rule with both role patterns, the union over the matching direct roles |
| PolicyTransitive.EscalateToResources | internal/policy/transitive.go:289-306 | for a rule with both principal and resource patterns and a matching principal, one violation per matching reached resource |
| PolicyTransitive.EscalationForPrincipal | internal/policy/transitive.go:262-307 | the union over the rules, in order |
| PolicyTransitive.TransitiveTableStep | internal/policy/transitive.go:245-251 | recording one more principal's analysis keeps the table faithful |
| PolicyTransitive.EscalationTableStep | internal/policy/transitive.go:245-308 | recording one more principal's violations keeps the table faithful |
| PolicyTransitive.ValidateImpersonationEscalation | internal/policy/transitive.go:236-311 | none without the block; otherwise, in any map order, the union over the principals of what the rules raise for each, each from a complete analysis of its email |
| PolicyTransitive.EscalationStep | internal/policy/transitive.go:246-307 | one principal: a complete analysis of its email, then every rule |
| PolicyTransitive.RoleEscalationMember | internal/policy/transitive.go:264-286 | a role-based violation is raised exactly for both patterns set, a matching direct role, and a matching role on a reached resource |
| PolicyTransitive.PrincipalEscalationCount | internal/policy/transitive.go:289-306 | a principal-based rule raises exactly one violation per matching reached resource, none otherwise |
| PolicyTransitive.EscalationOfReached | internal/policy/transitive.go:284-306 | a principal-based rule matching the principal and a reached resource puts that escalation among the principal's |
| PolicyTransitive.ReachedEscalationRaised | internal/policy/transitive.go:284-306 | a principal-based rule matching the principal and a resource on which someone reachable from it holds a new role raises that escalation |
| PolicyEffective.AddAccess | internal/policy/transitive.go:335-338 | marks (resource, principal), creating the inner map, and nothing else |
| PolicyEffective.AddDirectFor | internal/policy/transitive.go:327-339 | adds exactly the principal's directly held resources that match the pattern and the type ("" and "*" match any) |
| PolicyEffective.AddDirect | internal/policy/transitive.go:326-340 | the first loop marks exactly the directly selected pairs |
| PolicyEffective.AddTransitiveFor | internal/policy/transitive.go:352-361 | adds the reached resources matching the pattern alone, ignoring the type filter |
| PolicyEffective.AddTransitive | internal/policy/transitive.go:343-363 | the second loop adds exactly the transitively selected pairs, from a complete analysis of every principal's email |
| PolicyEffective.ReachedIsSelected | internal/policy/transitive.go:343-363 | a pattern-matching resource on which someone reachable by impersonation holds a new role is transitively selected |
| PolicyEffective.CheckEffectivePrincipal | internal/policy/transitive.go:368-395 | one violation for a forbidden or not-allowed principal, tagged direct iff it has the resource directly |
| PolicyEffective.CheckEffectiveResource | internal/policy/transitive.go:367-396 | the union over the principals reaching one resource |
| PolicyEffective.CheckEffective | internal/policy/transitive.go:366-397 | the union over the resources |
| PolicyEffective.ValidateEffectiveAccess | internal/policy/transitive.go:314-400 | none without the block; otherwise one violation per flagged (resource, principal) reaching it directly, or transitively when enabled |
| PolicyEffective.EffectiveMember | internal/policy/transitive.go:366-397 | a violation is raised exactly for a pair in the map whose principal is forbidden or not allowed |
| PolicyEffective.ReachedResourceIsEffective | internal/policy/transitive.go:343-397 | with transitive validation on, such a resource is in the effective map and reported when the principal is flagged |
| PolicyEffective.EffectiveAbout | internal/policy/transitive.go:366-397 | every violation is about one such pair and carries its access tag |
| PolicyEffective.EffectiveOnce | internal/policy/transitive.go:366-397 | each flagged pair is reported exactly once |
| PolicyEffective.AccessTagSound | internal/policy/transitive.go:374-384 | a "transitive" tag means the pair was reached through impersonation; a directly selected pair is tagged "direct" |
| PolicyValidator.CheckRestrictedRoles | internal/policy/validator.go:119-147 | the roles on one resource contribute exactly their checks, in any map order |
| PolicyValidator.CheckRole | internal/policy/validator.go:120-146 | one role: a deny-list violation when a non-empty deny list holds it, then an allow-list violation when a non-empty allow list lacks it |
| PolicyValidator.CheckRestrictedPrincipal | internal/policy/validator.go:112-148 | a selected principal contributes the checks of all its resources; an unselected one nothing |
| PolicyValidator.ValidateRoleRestriction | internal/policy/validator.go:102-152 | the violations are, in any map order, the checks of every role of every selected principal; none without the block |
| PolicyValidator.RoleRestrictionCount | internal/policy/validator.go:111-149 | each (principal, resource, role) of a selected principal is reported once as denied and once more as not allowed exactly when the respective non-empty list says so; nothing else is reported |
| PolicyValidator.RestrictedPrincipalCount | internal/policy/validator.go:111-149 | only the violation's own principal contributes it |
| PolicyValidator.RestrictedResourceCount | internal/policy/validator.go:118-148 | only the violation's own resource contributes it |
| PolicyValidator.RestrictedRoleCount | internal/policy/validator.go:119-147 | only the violation's own role contributes it |
| PolicyValidator.RestrictedResourceAbout | internal/policy/validator.go:122-145 | what one resource contributes names the principal and that resource |
| PolicyValidator.RestrictedPrincipalAbout | internal/policy/validator.go:122-145 | what one principal contributes names that principal |
| PolicyValidator.CheckMember | internal/policy/validator.go:176-205 | one member: unauthorized when not in the allow list, then a role violation when it has an entry in the per-principal map that does not admit the binding's role |
| PolicyValidator.CheckMembers | internal/policy/validator.go:175-206 | the member loop in member order |
| PolicyValidator.ValidateResourceAccess | internal/policy/validator.go:155-210 | the checks of every member of every selected binding, in binding and member order; none without the block |
| PolicyValidator.BindingChecksMember | internal/policy/validator.go:164-206 | within one binding, a violation comes from a check on one of its members, and only when the binding is selected |
| PolicyValidator.ResourceAccessMember | internal/policy/validator.go:164-206 | a violation is raised iff it is a check of some member of some selected binding |
| PolicyValidator.EmptyAllowListFlagsEveryMember | internal/policy/validator.go:177 | with an empty allow list every member of every selected binding is unauthorized |
| PolicyValidator.RoleViolationNeedsEntry | internal/policy/validator.go:191-204 | a role violation needs the member's own entry in the per-principal map, and that entry must not admit the role |
| PolicyValidator.Held | internal/policy/validator.go:236-243 | at most as many held entries as the conflict set has |
| PolicyValidator.HeldMember | internal/policy/validator.go:238-243 | a role is held iff the conflict set lists it and the principal holds it |
| PolicyValidator.CountHeld | internal/policy/validator.go:235-243 | hasCount is the number of held entries, repeats included, and the slice is those entries in order |
| PolicyValidator.CheckConflicts | internal/policy/validator.go:234-255 | the conflict-set loop in order |
| PolicyValidator.ValidateSeparationOfDuty | internal/policy/validator.go:213-260 | with scope per_principal, in any map order, every principal against every conflict set; otherwise nothing |
| PolicyValidator.HeldPair | internal/policy/validator.go:238-245 | two held positions make more than one held entry |
| PolicyValidator.HeldWitness | internal/policy/validator.go:238-245 | more than one held entry comes from two held positions |
| PolicyValidator.HeldMoreThanOne | internal/policy/validator.go:238-245 | more than one entry is held iff two different positions of the conflict set hold the principal's roles |
| PolicyValidator.RepeatedRoleConflicts | internal/policy/validator.go:238-245 | a role listed twice counts twice, so holding it alone raises a conflict |
| PolicyValidator.ConflictsOfMember | internal/policy/validator.go:234-255 | one principal raises one violation per conflict set of which it holds more than one entry |
| PolicyValidator.SeparationMember | internal/policy/validator.go:221-257 | a violation is raised iff some principal of directAccess holds more than one entry of some conflict set, and it lists those entries |
| PolicyValidator.ValidatePolicy | internal/policy/validator.go:77-99 | the validator of the policy's kind, and for any other kind one unknown_type error |
| PolicyValidator.UnknownKindFails | internal/policy/validator.go:91-97 | an unknown kind yields exactly one error-severity unknown_type violation naming the kind |
| PolicyValidator.CountSeverity | internal/policy/validator.go:57-66 | the count of one severity never exceeds the number of violations |
| PolicyValidator.CountSeverityAppend | internal/policy/validator.go:57-66 | counts add up over concatenation |
| PolicyValidator.SeverityCountsBound | internal/policy/validator.go:53-66 | error + warning + info counts are at most the number of violations, with equality iff every severity is recognised |
| PolicyValidator.CompliantMember | internal/policy/validator.go:47-52 | a name is compliant iff some policy of that name raised nothing |
| PolicyValidator.NoViolationsAllCompliant | internal/policy/validator.go:47-55 | no violations at all iff every policy is compliant |
| PolicyValidator.TallySeverities | internal/policy/validator.go:57-66 | the counters grow by the counts of their severities |
| PolicyValidator.RecordPolicy | internal/policy/validator.go:50-67 | a compliant policy's name is appended, otherwise its violations are appended and counted; the other fields are kept |
| PolicyValidator.ValidateNext | internal/policy/validator.go:47-68 | one loop turn extends both the outcomes and the summary by one policy |
| PolicyValidator.Validate | internal/policy/validator.go:36-74 | every policy's outcome in config order; violations, total and severity counts and compliant names summarise them; totalPolicies and principalsAnalyzed are the two sizes; highRiskFindings is empty; the max chain depth is the largest breadth-first distance from a principal of directAccess |
| PolicyValidator.WalkExtend | internal/policy/validator.go:288-294 | extending a walk by an edge gives a walk |
| PolicyValidator.ClosedHoldsWalks | internal/policy/validator.go:274-296 | a set with the root that is closed under edges holds every walk's end |
| PolicyValidator.WalkLeavesRoot | internal/policy/validator.go:288-294 | a walk that leaves its root uses an edge from the root to another principal |
| PolicyValidator.DepthInit | internal/policy/validator.go:268-272 | the loop invariant holds for the initial queue |
| PolicyValidator.DepthFrom | internal/policy/validator.go:268-296 | the search from one principal keeps the maximum, bounds every walk from it, and a raised maximum is the exact distance of the principal that raised it |
| PolicyValidator.AllWithin | internal/policy/validator.go:274-296 | after the search, every reachable principal is within the maximum |
| PolicyValidator.DepthStep | internal/policy/validator.go:275-295 | one turn keeps the invariants, the breadth-first order included, and shrinks (unvisited principals, queue length) lexicographically |
| PolicyValidator.PopVisitedDepth | internal/policy/validator.go:278-280 | skipping a visited head keeps the invariant |
| PolicyValidator.VisitDepth | internal/policy/validator.go:281-295 | visiting the head and queueing its targets keeps the invariant |
| PolicyValidator.ClosureAfterVisit | internal/policy/validator.go:288-295 | every edge from a visited principal stays covered |
| PolicyValidator.QueueTargets | internal/policy/validator.go:288-295 | every target is queued one step further |
| PolicyValidator.CalculateMaxChainDepth | internal/policy/validator.go:263-300 | non-negative; everything reachable from a principal of directAccess is within it; when positive, some principal is exactly that many steps from one of them |
| PolicyValidator.MaxChainDepthIsLargestDistance | internal/policy/validator.go:263-300 | the result is the largest distance from a principal of directAccess to anything it reaches, and 0 when none reaches another |
| PolicyValidator.DistanceExists | internal/policy/validator.go:274-296 | whatever is reachable within d steps is at some distance of at most d |
| PolicyValidator.VisitHead | internal/policy/validator.go:281-295 | visiting an unvisited head keeps both loop invariants, the breadth-first order included, and a raised maximum is that principal's distance |
| PolicyValidator.PopAndQueue | internal/policy/validator.go:275-295 | after the pop, the old tail is followed by the head's targets, each one step deeper |
| PolicyValidator.VisitLongest | internal/policy/validator.go:283-285 | a maximum raised by a visit is the distance of the principal visited |
| PolicyValidator.LayerComplete | internal/policy/validator.go:274-296 | once every queued entry is deeper than d, every principal d steps away is visited |
| PolicyValidator.NextLayer | internal/policy/validator.go:274-296 | when the head moves one layer deeper, the layer it leaves is complete |
| PolicyValidator.OrderedAfterPop | internal/policy/validator.go:276-295 | queue depths stay non-decreasing and within one of the head |
| PolicyValidator.PopVisitedLayered | internal/policy/validator.go:278-280 | skipping a visited head keeps the breadth-first order |
| PolicyValidator.PopTargetsQueued | internal/policy/validator.go:278-280 | skipping a visited head keeps every target of a visited principal visited or queued |
| PolicyValidator.VisitLayered | internal/policy/validator.go:281-295 | visiting a head and queueing its targets keeps the breadth-first order |
| PolicyValidator.VisitAtDistance | internal/policy/validator.go:278-281 | a principal first visited at depth d has no shorter walk from the root |
| PolicyValidator.VisitTargetsQueued | internal/policy/validator.go:288-295 | the targets of the principal just visited are queued one step deeper |
| PolicyValidator.WalkLast | internal/policy/validator.go:288-294 | a non-empty walk is a shorter walk and one edge |
| PolicyValidator.WithinGrows | internal/policy/validator.go:283-285 | a bound stays a bound when the maximum grows |
| PolicyValidator.MaxChainDepthPositive | internal/policy/validator.go:263-300 | the maximum is positive iff some principal of directAccess has an edge to another principal; so it is 0 for an empty graph |

## Left out

- File reading, YAML and JSON decoding, the CLI commands, console output and the HTML/JSON report writers are not part of this model. Decoded values enter as parameters (`RulesConfig`, the plan's module tree, `PolicyConfig`), and a read or decode failure of the rules file is a parameter of `LoadRules`.
- The warning `extractBindingsFromModule` prints for a resource it skips is console output; the model only skips the resource.
- `filepath.Match` and `regexp` semantics (separators, character classes, malformed patterns) are abstract predicates, as described above.
- Go map iteration order: the "first" matching principal in `AnalyzeTransitiveAccess` is any matching principal, and violations produced in map order are stated as multisets.
- A violation's `Location` field is never set by the validators and is not modelled. Messages and remediation hints are `Message` values; `PolicyModels.MessageText` and `PolicyModels.Remediation` give their Go text.
- The hierarchy warnings' texts are computed from the warning's fields by `Hierarchy.WarningMessage` instead of being stored.
- `definitions.GetRoleHierarchy`, and the `TargetLevel` and `DisplayName` fields the hierarchy analysis reads, do not exist in the revision of `internal/definitions/hierarchy.go` this model follows. The role table is therefore a parameter of the hierarchy analysis, with all four fields.
- The `canImpersonate` field of `PolicyValidator` is stored but never read by the validators, so the validators take no such parameter.
- `Validate`'s error result is always nil, so the model's `Validate` returns only the report.
- `NewValidator` only stores its arguments; the validators take the same values as parameters.
- `sort.Slice` is modelled by an insertion-sort function (`Hierarchy.SortBy`). The keys are unique, so every correct sort gives the same result (`Hierarchy.SortedUnique`).
- Pointer identity and the difference between a nil slice or map and an empty one are not modelled: both are the empty value.
