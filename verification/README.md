# Verified model of the item-dependency analyser

The analyser removes unused items from one Rust file, compiles the reduced file again, and compares the compiler's
decisions in the two runs after moving everything back into original-source coordinates. rustc only supplies facts; the
algorithms that make the comparison sound work on owned data, and those are what this project models and proves:

- rewriting the source and mapping ranges of the output back to the original (`Text`, `Rewrite`, `Coordinates`,
  `UseTrees`, `UseRewrite`, `DeriveLists`, `Retention`), and what the three kinds of deletions do together
  (`SourceRewriting`);
- identities of definitions that survive the reduction, their canonical numbering, and their move into original
  coordinates (`GraphKeys`, `Definitions`, `IdentityAssignment`, `IdentityStability`, `Forests`, `Canonical`, `Grouping`,
  `DefinitionGraphs`, `Normalization`, `RangeNormalization`, `KeyStability`);
- keys and dense numbers of macro expansions (`Expansions`, `ExpansionNumbering`);
- the ledger of live and discarded macro output (`MacroOutput`);
- the validated dependency graph with its proof relations, allocation paths, reachability and source survival
  (`DependencyTypes`, `GraphShapes`, `Paths`, `Survival`, `Reachability`, `ProofRelations`, `AllocationPaths`,
  `DependencyGraphs`), and what moving all its ranges does to the constructor's answer (`EdgeKeys`, `GraphMove`,
  `GraphVerdict`, `LostCalls`);
- the byte encoding used as an identity of compiler terms (`CompilerTerms`);
- ownership of the snapshot stores shared by several processes (`SnapshotStores`, `SnapshotLeases`).

Beside these stand modules that say what the named definitions come to in terms of the data's own fields, literal
constants and positions, so that the theorems can be read without them: `IdentityFields`, `NumberingFields`,
`DefinitionGraphFields`, `NormalizationFields`, `ProofEdges`, `NodeFields`, `DependencyGraphFields`, `DependencyOrders`,
`TermBytes` and `ListExamples`.

`Wrappers` and `Ordering` hold the shared vocabulary: optional values and results, sorting, duplicates, ranks and groups.

`dafny verify dfyconfig.toml` checks everything.

## How the model reads the code

- A text is a sequence of bytes that is well-formed UTF-8 (RFC 3629, sections 3 and 4); char boundaries are its lead
  bytes. Offsets are 32-bit where the code uses `u32`, with the overflow checks written out.
- Code that fills maps, slices or vectors is a method with loops, proved against a specification; the specification's
  own properties are lemmas. The iteration order of a `BTreeMap` is left arbitrary wherever the result does not depend
  on it, which the proofs then establish.
- `RawDefinition` and `RawExpansion` keep only the fields the modelled functions read. A `View` is a definition as the
  identity code sees it, with its origin and product basis already in original coordinates.
- A brace-delimited use tree and a derive list are described by a syntax tree together with its rendering; "holding" a
  tree at an offset means that the text there is that rendering. The tokens, delimiter pairs and comma segments the code
  asks its tokenizer for are determined by the tree, and this is the precondition of the methods about them.
- Automatic induction is switched off on every lemma, so no proof rests on an induction hypothesis that is not written
  out.
- A snapshot-store run is any interleaving of the single file-system calls of any number of processes, each of which may
  fail where the code returns an error and may stop anywhere.

## What turned out to be false

Moving a dependency graph into original coordinates can turn an accepted graph into a rejected one. An empty range leaves
a non-empty range whose end it is when bytes were deleted there, at a seam between two pieces
(`Coordinates.EmptyRangeContained`, `GraphMove.ContainsMoved`). A direct call of an associated item must be covered by the
sites of its monomorphic counterpart, so a call observed as an empty range at such an end loses its counterpart.
`GraphVerdict.VerdictMoved` states for all parts that the constructor's answer changes exactly when it would come to join
such a call and the call is to a concrete item; `LostCalls.CallRejected` gives parts and a rewrite for which it does. The
collector does not exclude the case: `observation_site` (src/monomorphization.rs:1483-1514) turns only dummy spans into
compiler-generated sites, and any other span of the input, empty or not, into a source range. Whether the compiler gives a
call an empty span is not visible in the repository.

`DefinitionGraph::new` does not accept every mapped graph. For a non-root definition of kind `Crate` with a written
origin the anchor is mapped as the whole crate while the site of its parent edge is mapped as an ordinary range; they
agree only if nothing was cut from either end of the file. This limits what the constructor accepts on parts built by
hand, not what the program does: the collector gives the kind `Crate` to the crate's own root only
(src/definitions.rs:556), and then normalisation succeeds exactly when every range lies in the rewritten text
(`Normalization.NormalizeDefinitionGraph`, `Normalization.CollectedGraphMoves`). `Normalization.MappedAcceptance` states
the exact condition for all graphs, and `Normalization.CrateChildRejected` gives a graph and a rewrite that fail it.

## What is assumed of the collector

- `Retention.UnitsApart`: units of which neither is above the other do not overlap. `validate_units`
  (src/source.rs:3500-3545) checks only that a child lies inside its parent. `Retention.FrontierDisjoint`,
  `Retention.RetainedLosesOnlyBelow` and the theorems of `SourceRewriting` need it; no method requires it.
- `SourceRewriting.Lists`: a use item or derive list is laid out as its syntax tree, its entries are the children of its
  unit, lists do not overlap, and every unit that is deleted with its commas is an entry of one of them. Only the theorems
  about the result need it.

## Model

| member | source | states |
|---|---|---|
| Rewrite.MergeDeletions | src/rewrite.rs:628-660 | Succeeds exactly when every sorted deletion is non-empty, aligned and bounded by known boundaries; the result has strict gaps and deletes exactly the same bytes. |
| Rewrite.AppendPiece | src/rewrite.rs:695-721 | Fails exactly on an invalid non-empty range or an output past 32 bits; otherwise appends that slice and one piece recording where it came from. |
| Rewrite.Splice | src/rewrite.rs:662-693 | Succeeds exactly when the deletions ascend; the output is the original without precisely the deleted bytes, and the pieces tile it, so the piece-map check that ends the function never fails. |
| Rewrite.SourceRewrite.ValidPieceMap | src/rewrite.rs:115-132 | The cursor walk accepts exactly the piece lists that tile the output in order without overlapping in the original. |
| Rewrite.SurvivorsExact | src/rewrite.rs:662-693 | The surviving positions the splice copies are exactly the undeleted ones: the reference meaning of a deletion. |
| Text.BoundaryMeans | src/rewrite.rs:723-728 | A position is a char boundary exactly when the text before it and the text after it are both well-formed UTF-8. |
| Coordinates.ApplyDeletions | src/rewrite.rs:149-189 | Sorting, merging and splicing any deletions succeeds exactly when each is acceptable, whatever their order, and yields the original without exactly their union. |
| Coordinates.RightBiased | src/rewrite.rs:77-113 | A start offset maps to the original position of the byte that follows it, the end of the text to one past the last surviving byte. |
| Coordinates.LeftBiased | src/rewrite.rs:77-113 | A non-zero end offset maps to one past the original position of the byte before it. |
| Coordinates.OriginalRangeClosedForm | src/rewrite.rs:40-113 | A range maps to the original position of its first byte and one past that of its last; an empty one to where its start maps, and nothing but a range of the text maps. |
| Coordinates.RewriteIsTiled | src/rewrite.rs:149-189 | In a rewrite those positions are exactly the undeleted ones, in order. |
| Coordinates.OriginalRangeTotal | src/rewrite.rs:40-55 | Succeeds for exactly the in-bounds, char-aligned ranges, stays inside the original, and a range maps to an empty one exactly when it is empty. |
| Coordinates.OriginalRangeInjective | src/rewrite.rs:40-55 | Two ranges with the same original range are the same range. |
| Coordinates.OriginalRangeContent | src/rewrite.rs:40-55 | Removing the deletions from the original slice of a non-empty range gives back exactly the output slice, and the slice begins and ends with surviving bytes. |
| Coordinates.OriginalRangeAligned | src/rewrite.rs:40-55 | The original range of a non-empty aligned range lies on char boundaries of the original text. |
| Coordinates.OriginalRangeMonotone | src/rewrite.rs:40-55 | Order and containment of non-empty ranges hold in the original exactly when they hold in the output. |
| Coordinates.EmptyRangeContained | src/rewrite.rs:40-55 | An empty range inside another stays inside it exactly when it is not the other's end at a seam between pieces. |
| UseTrees.PruneWellFormed | src/rewrite.rs:549-626 | Pruning a well-formed use tree leaves a well-formed one. |
| UseTrees.PruneKeepsPaths | src/rewrite.rs:549-626 | The leaves of the pruned tree, with their full paths and in order, are exactly the retained ones. |
| UseTrees.EntryRemains | src/rewrite.rs:549-626 | Deleting the ranges chosen for a kept entry from any text holding it leaves the text of the pruned entry. |
| UseTrees.ItemsRemain | src/rewrite.rs:549-626 | The same for a comma list: what is left is the rendering of the kept entries with the commas between them, or nothing. |
| UseRewrite.EnclosingIsSmallest | src/rewrite.rs:523-547 | The pair found holds all leaves within the limit and is the smallest such pair; none is found only if none exists. |
| UseRewrite.EnclosingFindsFocus | src/rewrite.rs:523-547 | For a brace group of a laid-out use tree the search finds the innermost group that still holds all of its leaves. |
| UseRewrite.RewriteGroup | src/rewrite.rs:549-626 | Never fails on a mixed group, terminates, and appends exactly the deletions that the pruned tree calls for. |
| UseRewrite.RewriteUseItem | src/rewrite.rs:466-521 | Nothing to do when everything is retained, an invalid retention when nothing is, and otherwise success with the deletions of the pruned tree, from leaves given in any order. |
| UseRewrite.UseItemPruned | src/rewrite.rs:466-626 | Applying those deletions to a source holding the use item replaces the item by a well-formed one whose leaves are exactly the retained ones, in order and with full paths, and leaves the rest of the source alone. |
| ListExamples.UseTreeExample | src/rewrite.rs:549-626 | Byte by byte on `{a,b,c}`, for every choice of entries: a lost entry goes with its following comma, the last with the one before, and when the last two go the comma before them stays. |
| DeriveLists.KeepKeeps | src/rewrite.rs:378-464 | Pruning a derive list keeps exactly the retained elements in order and a trailing comma exactly when there was one. |
| DeriveLists.RunsGapped | src/rewrite.rs:428-463 | The deletions of a derive list are non-empty, inside the list, and separated by at least one byte. |
| DeriveLists.RunsRemain | src/rewrite.rs:428-463 | What the run deletions leave of the list's text is the rendering of the pruned list. |
| DeriveLists.DeleteRuns | src/rewrite.rs:428-463 | The loop over runs of dropped entries never fails while one element is kept and returns exactly the specified run deletions. |
| DeriveLists.RewriteDeriveAttribute | src/rewrite.rs:378-464 | No deletion when everything is retained, an invalid retention when nothing is, and otherwise the run deletions. |
| DeriveLists.DeriveListPruned | src/rewrite.rs:378-464 | Applying the deletions leaves the source with a well-formed list of exactly the retained elements in order, its trailing comma present exactly when it was, and the deletions are disjoint. |
| ListExamples.DeriveListExample | src/rewrite.rs:428-463 | Byte by byte on three elements: a lost run at the end goes with the comma before it. |
| ListExamples.FirstRunExample | src/rewrite.rs:428-463 | A lost run before a kept element goes with the comma after it. |
| ListExamples.TrailingCommaExample | src/rewrite.rs:428-463 | Where the list ends in a comma, a lost run at the end goes with the comma after it, so the list still ends in one. |
| Retention.ValidateRetention | src/rewrite.rs:236-273 | Accepts exactly when every retained id is a unit, the parent of a retained unit is retained, and units of one atomic group are retained together; said of the fields themselves. |
| Retention.FrontierDeletions | src/rewrite.rs:275-312 | Lists, in order, exactly the full ranges of the lost units whose parent is retained and that are neither leaves of use items nor entries of other lists; fails exactly when one of these ranges is empty. |
| Retention.AncestorsRetained | src/rewrite.rs:236-273 | In a coherent retention every ancestor of a retained unit is retained. |
| Retention.FrontierAbove | src/rewrite.rs:275-312 | Every lost unit lies below, or is, a frontier unit. |
| Retention.FrontierUnique | src/rewrite.rs:275-312 | It lies below exactly one. |
| Retention.FrontierDisjoint | src/rewrite.rs:275-312 | When units of different branches do not overlap, different frontier units have disjoint ranges, so their deletions never meet. |
| Retention.LostUnitsCovered | src/rewrite.rs:275-312 | Every byte of a lost unit is deleted once its frontier unit is one that is deleted as a whole. |
| Retention.RetainedLosesOnlyBelow | src/rewrite.rs:275-312 | When units of different branches do not overlap, a retained unit loses a byte only to a frontier unit strictly below it that is deleted as a whole. |
| SourceRewriting.RewriteSource | src/rewrite.rs:149-189 | Validation, the deletions of lost units, of use items and of derive attributes, sorted, merged and spliced at once: succeeds exactly when the retention is coherent, no unit deleted whole is empty, no retained list loses all its entries, and every deletion is non-empty, in the text, on char boundaries and between known boundaries. |
| SourceRewriting.LostBytesGo | src/rewrite.rs:149-189 | Every byte of every lost unit is deleted, whether the unit is deleted whole or is an entry of a use item or derive list. |
| SourceRewriting.OnlyLostBytesGo | src/rewrite.rs:149-189 | Nothing else is deleted, except bytes of a retained list outside its retained entries: separators, braces, path prefixes and trivia. |
| SourceRewriting.EntriesSettled | src/rewrite.rs:149-189 | Under all deletions together, every entry of a retained list keeps all of its bytes or loses all of them, as it is retained or not. |
| SourceRewriting.ListAlone | src/rewrite.rs:149-189 | Inside a retained list, the deletions of everything else have no effect. |
| SourceRewriting.ListPruned | src/rewrite.rs:149-189 | What all deletions together leave of a retained use item or derive list is the rendering of its pruned form. |
| SourceRewriting.RewriteMeans | src/rewrite.rs:149-189 | The output is the original without exactly the deleted bytes: outside retained lists these are the bytes of lost units, and each retained list is left as its pruned form. |
| IdentityAssignment.PrivateOrdinals | src/definitions.rs:1084-1113 | Fails exactly when two members of an exact product cohort share a compiler ordinal; otherwise every definition gets its rank in its cohort. |
| IdentityAssignment.Identity | src/definitions.rs:1122-1165 | The memoised recursion with its active set returns the path of parts from the root exactly when the parent chain ends inside the input, and fails on every cycle or missing parent. |
| IdentityAssignment.AllIdentities | src/definitions.rs:1167-1182 | Succeeds exactly when every chain ends inside the input, whatever the order in which the memo fills. |
| IdentityAssignment.AssignPublic | src/definitions.rs:1184-1253 | The public cohorts are accepted exactly as `IdentityFields.OriginalAcceptance` and `IdentityFields.ComparedAcceptance` spell out; each definition gets its rank in the original run or its recorded ordinal in a compared run. |
| IdentityAssignment.AssignStructuralOrdinals | src/definitions.rs:1041-1254 | Success is decided exactly; the returned universe holds every identity with its ordinal and nothing else; every definition is the old one with its ordinal written to itself and its origin. In an original run that ordinal is the number of definitions with the same parent, origin key, kind and name and a smaller compiler ordinal. |
| IdentityFields.ViewMeans | src/definitions.rs:1054-1077 | A definition is seen exactly when the anchor or invocation range of its origin moves, the anchor of a crate as the whole file, and its product basis does, with no source empty and all strictly ascending; all other fields are seen as they are. |
| IdentityFields.SourcesCompared | src/source.rs:174-186 | That order is by kind of source, then by range. |
| IdentityFields.InsideMeans | src/definitions.rs:1122-1165 | A chain of parents ends inside the input exactly when there is a list of indices that follows parent ids up to a definition without a parent. |
| IdentityFields.IdentityMeans | src/definitions.rs:1122-1165 | An identity is the parent's identity followed by kind, origin, basis, name and the number of definitions that agree in these and the parent and precede in compiler order. |
| IdentityFields.SamePublicMeans | src/definitions.rs:1184-1207 | Two definitions share a public cohort exactly when they have the same parent, origin, kind and name. |
| IdentityFields.OriginalAcceptance | src/definitions.rs:1184-1225 | An original run is accepted exactly when every chain ends and definitions with the same parent, origin, kind and name differ in compiler ordinal. |
| IdentityFields.OriginalOrdinal | src/definitions.rs:1208-1225 | The ordinal of an original run counts the definitions with the same parent, origin, kind and name before it in compiler order. |
| IdentityFields.OriginalRun | src/definitions.rs:1041-1254 | The same for the definitions as the function takes them. |
| IdentityFields.NamesApart | src/definitions.rs:1184-1225 | Acceptance is decided name by name. |
| IdentityFields.OtherNamesIrrelevant | src/definitions.rs:1184-1225 | Definitions with other names never affect an ordinal, whatever their fields and whether they are there or not. |
| IdentityFields.ComparedAcceptance | src/definitions.rs:1184-1253 | A compared run is accepted exactly when every chain ends, private cohorts are separated, every identity is recorded, and definitions with the same parent, origin, kind and name have different recorded ordinals. |
| Definitions.IdentitiesDistinct | src/definitions.rs:1122-1182 | Definitions with separated private cohorts never share an identity, at any depth. |
| IdentityStability.RankKept | src/definitions.rs:1084-1113 | Keeping cohorts whole keeps every private rank. |
| IdentityStability.IdentityKept | src/definitions.rs:1122-1165 | A kept definition has the identity it had in the full run. |
| IdentityStability.StableUnderReduction | src/definitions.rs:1041-1254 | For every parent-closed part that keeps exact product cohorts whole and their compiler order, the assignment against the full run's universe succeeds and gives every kept definition the ordinal it had. |
| IdentityStability.UniverseShrinks | src/definitions.rs:1226-1242 | The universe recorded by the reduced run is part of the full run's, so reductions can be chained. |
| KeyStability.KeysReturn | src/definitions.rs:1041-1393 | Assignment, numbering and normalisation together: the key of any definition of the reduced run, moved back into original coordinates, is defined and equals the key that definition has in the full run. |
| KeyStability.PartReturns | src/definitions.rs:1256-1280 | The same for a single key part: origin, kind, name and ordinal. |
| KeyStability.ParentReturns | src/definitions.rs:1288-1393 | The parent link of a definition of the reduced run is the parent link it has in the full run. |
| KeyStability.DefinitionReturns | src/input.rs:1862-1898 | A normalised definition of the reduced run has the key, the kind, the origin key with its anchor, and the parent key of the definition of the full run that it is. |
| KeyStability.NormalizedAreKept | src/input.rs:1862-1898 | The normalised definitions of the reduced run are exactly the kept definitions of the full run, in both directions. |
| Canonical.Append | src/definitions.rs:1333-1375 | Recursively numbers a subtree in preorder, each entry below its parent's, with the id map and the product bases kept in step. |
| Canonical.Canonicalize | src/definitions.rs:1288-1393 | Succeeds exactly when the crate root is present, every other parent is in the input and every definition is reached from the root: a parent cycle is never walked and shows in the final length. The numbering follows a preorder with siblings in order that covers every definition. |
| Canonical.LocalIdsBijective | src/definitions.rs:1288-1393 | The id map is a bijection between the definitions and 0..n. |
| Canonical.KeysDistinct | src/definitions.rs:1333-1375 | Entries with the same key are the same entry. |
| Canonical.CanonicalLocalsValid | src/graph.rs:251-315 | The local-definition checks of the graph constructor cannot fail on a canonical numbering, and its sort changes nothing. |
| Canonical.AssignedForest | src/definitions.rs:1190-1251 | A successful assignment leaves a forest whose siblings have different key parts and whose origins carry their ordinals. |
| Canonical.NumberAssigned | src/definitions.rs:1041-1393 | On a single-rooted input with unique compiler ids nothing after a successful assignment can fail: the numbering exists, has every definition, and passes the local checks. |
| NumberingFields.NumberingMeans | src/definitions.rs:1333-1393 | Field by field: every definition has its own number, and its entry has its kind, origin and product basis, the number of its parent, and the parent's key followed by a part of its own kind, origin key, name and ordinal. |
| NumberingFields.NumberingDepthFirst | src/definitions.rs:1333-1375 | Every entry but the first has its parent at or above the entry just before it, and the first has none. |
| NumberingFields.SiblingsNumbered | src/definitions.rs:1308-1331 | Of two children of one definition the one that sorts strictly first gets the smaller number. |
| NumberingFields.OriginsCompared | src/definitions.rs:1317-1331 | Siblings written in the source sort before expanded ones, these before compiler-generated and these before injected ones. |
| NumberingFields.WrittenCompared | src/graph.rs:76-84 | Written siblings sort by unit, unit range, anchor, unit kind and unit ordinal. |
| NumberingFields.ExpandedCompared | src/graph.rs:85-90 | Expanded siblings sort by invocation, its range, role and ordinal. |
| NumberingFields.GeneratedCompared | src/graph.rs:91-94 | Compiler-generated siblings sort by role and ordinal. |
| NumberingFields.InjectedCompared | src/graph.rs:95-98 | Injected siblings sort by role and ordinal. |
| NumberingFields.KindsCompared | src/definitions.rs:1317-1331 | With the same origin the kind decides, as declared. |
| NumberingFields.NamesCompared | src/definitions.rs:1317-1331 | Then the name: none first, then by the first character that differs, a prefix first. |
| NumberingFields.OrdinalsCompared | src/definitions.rs:1317-1331 | Then the ordinal. |
| NumberingFields.KindsRanked | src/graph.rs:12-49 | The ranks of kinds follow their declaration. |
| Forests.WalkCovers | src/definitions.rs:1333-1375 | The recursive walk from the only root visits every node exactly once. |
| Forests.WalkPreorder | src/definitions.rs:1333-1375 | The walk is a preorder: each node hangs below the chain of the one before it. |
| Forests.ParentEarlier | src/definitions.rs:1333-1375 | In a preorder every parent comes before its children. |
| Forests.WalkSiblings | src/definitions.rs:1308-1331 | Siblings appear in the walk in their sorted order. |
| Forests.WalkBelow | src/definitions.rs:1333-1391 | From a root that is not below itself the walk visits exactly the nodes whose chain of parents ends in it, each once, whatever the rest of the input looks like. |
| DefinitionGraphs.CheckLocals | src/graph.rs:251-315 | On definitions numbered from 0 the imperative checks accept exactly the valid ones. |
| DefinitionGraphs.LinkCheckDecides | src/graph.rs:356-396 | The check of a definition's parent edge on the grouped edges decides the same statement about the edges as given. |
| DefinitionGraphs.New | src/graph.rs:245-405 | Succeeds exactly on acceptable parts and returns them sorted, with one edge per connection and kind holding the union of its sites; otherwise the error is that of the first check that fails, ids of definitions before ids of externals before the rest. |
| DefinitionGraphs.AcceptedAgain | src/graph.rs:245-405 | The parts of an accepted graph are accepted again. |
| DefinitionGraphFields.LocalsMean | src/graph.rs:251-315 | Local definitions are valid exactly when ids run from 0, the root and every definition are sound, and no key comes twice. |
| DefinitionGraphFields.RootMeans | src/graph.rs:267-283 | Sound root: exactly one definition has no parent, and it is a written crate root with a one-part key. |
| DefinitionGraphFields.DefinitionMeans | src/graph.rs:285-306 | Sound definition: the last part of the key has its kind, origin key and ordinal, the rest is the key of its parent, which comes earlier. |
| DefinitionGraphFields.EdgeMeans | src/graph.rs:329-341 | An edge is accepted exactly when both ends exist, no site is reversed, and it has a site or is a parent edge. |
| DefinitionGraphFields.ParentLinkMeans | src/graph.rs:356-401 | A child has a parent edge to its parent and to nothing else, observed at its anchor or its invocation range and nowhere else; the root has none. |
| DefinitionGraphFields.EdgesCompared | src/graph.rs:186-228 | Edges sort by source, then by target, local ones first, then by kind as declared. |
| Grouping.Group | src/graph.rs:327-371 | Grouping gives the sorted normal form with sorted, duplicate-free sites. |
| Grouping.NormalFormUnique | src/graph.rs:327-371 | Edges that observe the same sites have one normal form. |
| Normalization.NormalizeDefinitionKey | src/definitions.rs:396-419 | Succeeds exactly when every part maps and then maps every part, leaving kind, name and ordinal alone. |
| Normalization.MappedKeyInjective | src/definitions.rs:396-419 | Distinct keys stay distinct. |
| Normalization.MappedKeyExtends | src/definitions.rs:396-419 | A child key still extends its parent's by one part. |
| Normalization.MappedLocalsValid | src/input.rs:1862-1898 | Valid local definitions stay valid and sorted. |
| Normalization.MappedParentLinked | src/input.rs:1862-1898 | A parent edge still agrees with its definition exactly when the definition is not a non-root one of kind Crate with a written origin, or nothing was cut from the file. |
| Normalization.MappedAcceptance | src/input.rs:1862-1898 | The constructor accepts the mapped parts of an accepted graph exactly under that condition. |
| Normalization.NormalizeDefinitionGraph | src/input.rs:1862-1898 | Succeeds exactly when every range maps and that condition holds, and when only the root is a crate exactly when every range lies in the rewritten text; the result holds the mapped definitions, the same externals and the grouped mapped edges, and is accepted. |
| Normalization.FittingMaps | src/input.rs:1862-1898 | Every range of a definition graph maps exactly when every one lies in the rewritten text on char boundaries, the crate's own spanning all of it. |
| Normalization.CollectedGraphMoves | src/definitions.rs:550-560 | A graph in which only the root has kind Crate, as the collector builds it, is accepted again after the move as soon as its ranges lie in the text. |
| Normalization.CrateChildRejected | src/input.rs:1862-1898 | A concrete accepted graph and rewrite for which normalisation fails, because the edge site is mapped as a range and the anchor as the whole crate. |
| NormalizationFields.CrateRangeMeans | src/rewrite.rs:57-75 | A crate range maps exactly when it is the whole rewritten text, and then to the whole original. |
| NormalizationFields.PartMoves | src/definitions.rs:396-419 | Of a key part only the anchor of a written and the invocation range of an expanded origin move; kind, name, ordinal, unit kind and role stay. |
| NormalizationFields.OriginMoves | src/input.rs:1866-1884 | Of an origin only the unit range and the anchor, or the invocation range, move. |
| NormalizationFields.GraphMoves | src/input.rs:1862-1898 | A moved graph has the same ids, kinds, parents and edge ends, with every key part, origin and site moved. |
| NormalizationFields.ExpansionPartMoves | src/input.rs:1900-1920 | Of an expansion key part the four ranges move, those that are there; all else stays. |
| NormalizationFields.ExpansionMoves | src/input.rs:1900-1920 | Of an expansion only the parts of its key move. |
| NormalizationFields.MonoMoves | src/input.rs:1922-1937 | Of a monomorphic node only the source sites in the path of an allocation move. |
| NormalizationFields.ObservationMoves | src/input.rs:1939-1951 | Of an edge only its source sites move. |
| RangeNormalization.NormalizeExpansionRanges | src/input.rs:1900-1920 | Succeeds exactly when every range of every key maps; then every node is its mapped self in place. |
| RangeNormalization.NormalizeMonoRanges | src/input.rs:1922-1937 | The same for the sites of allocation paths. |
| RangeNormalization.NormalizeObservationRanges | src/input.rs:1939-1951 | The same for the observation sites of edges. |
| RangeNormalization.ExpansionKeysStayDistinct | src/input.rs:1900-1920 | Distinct expansion keys stay distinct. |
| RangeNormalization.ExtensionKept | src/input.rs:1900-1920 | An expansion's key extends its parent's after the move exactly when it did before. |
| RangeNormalization.AllocationsAlike | src/input.rs:1922-1951 | The allocation check gives the same answer before and after the move. |
| Expansions.AssignExpansionKeys | src/expansions.rs:367-421 | Terminates, and succeeds exactly when every identity-parent chain ends inside the input and no two siblings with equal parts share a hash; every expansion then has its specified key. |
| Expansions.Round | src/expansions.rs:370-417 | One round keys exactly the expansions whose parents are keyed, or proves the input unassignable; the remaining set shrinks. |
| Expansions.KeysIdentify | src/expansions.rs:418-420 | Assigned keys are distinct. |
| Expansions.Separated | src/expansions.rs:418-420 | Once every expansion is keyed there are as many keys as expansions: the final distinctness check never fires. |
| Expansions.KeyExtendsParent | src/expansions.rs:405-414 | A root's key is its own part, and every other key extends its identity parent's by one part. |
| Expansions.OrdinalsFollowHashes | src/expansions.rs:395-408 | Among siblings with equal parts the ordinals follow the hashes. |
| Expansions.AssignableMeans | src/expansions.rs:367-421 | Keys can be assigned exactly when from every expansion a chain of identity parents leads up to one without, and siblings whose parts agree in every field have different hashes. |
| Expansions.AssignedMeans | src/expansions.rs:395-417 | An assigned key is the identity parent's key, if any, followed by the expansion's own part with the number of siblings that agree with it in every field and have a smaller hash. |
| ExpansionNumbering.NumberExpansions | src/expansions.rs:156-165 | The dense ids follow the key order; numbering fails exactly when two expansions share a compiler id. |
| ExpansionNumbering.NumbersFollowKeys | src/expansions.rs:156-165 | After a successful key assignment the numbering order is strict: no two expansions tie. |
| ExpansionNumbering.ParentsNumberedFirst | src/expansions.rs:156-165 | An identity parent is numbered before its children. |
| ExpansionNumbering.NumbersDependOnKeys | src/expansions.rs:156-165 | Two runs with the same keys number them alike, whatever their compiler ids and input order. |
| ExpansionNumbering.FirstDifferenceDecides | src/expansions.rs:156-157 | Keys compare by the first part in which they differ, and a key comes before any longer one that it begins. |
| MacroOutput.LaminarOutputRanges | src/macro_output.rs:499-523 | True exactly when all ranges are non-empty and every two are disjoint or nested. |
| MacroOutput.Sweep | src/macro_output.rs:504-521 | The scan with the ancestor stack decides laminarity of a sorted list; the stack stays a containment chain. |
| MacroOutput.NormalizeDiscardedOutputRanges | src/macro_output.rs:433-451 | Succeeds exactly when the ranges are non-empty, in bounds and pairwise disjoint, and returns them sorted. |
| MacroOutput.ContiguousRuns | src/macro_output.rs:466-479 | The merged runs cover the same tokens and leave a gap between any two. |
| MacroOutput.FirstAndLastDecide | src/macro_output.rs:481-496 | Looking at the first and last overlapping discarded range decides what the quadratic check over all of them says. |
| MacroOutput.RunCovers | src/macro_output.rs:489-495 | One contiguous run decides whether the union of discarded ranges covers a live one. |
| MacroOutput.DiscardedOutputsFitLiveProducts | src/macro_output.rs:453-497 | The binary searches agree with the quadratic specification for every live range. |
| MacroOutput.NewLedger | src/macro_output.rs:75-99 | Succeeds exactly when the quadratic specification holds, and keeps the live set and the discarded multiset. |
| MacroOutput.LedgerMeans | src/macro_output.rs:75-99 | The three demands on a ledger, none of which can be left out. |
| MacroOutput.LaminarMeans | src/macro_output.rs:499-523 | Laminar: non-empty, and any two ranges apart or one inside the other. |
| MacroOutput.DisjointMeans | src/macro_output.rs:433-451 | Discarded ranges are non-empty, in bounds, and any two entries of the list apart. |
| MacroOutput.FitsMeans | src/macro_output.rs:453-497 | A live range fits when it is non-empty and in bounds, every discarded range is apart from it or inside it, and some token of it lies outside all of them. |
| MacroOutput.Ledger.ContainsLiveOutput | src/macro_output.rs:109-111 | The binary search answers membership in the live set. |
| DependencyGraphs.New | src/dependency_graph.rs:571-751 | Returns the candidate (sorted nodes and roots, definition edges joined and grouped) exactly when no check objects, and otherwise the first objection. |
| DependencyGraphs.GroupEdges | src/dependency_graph.rs:642-671 | One edge per connection with the union of the sites and the combined evidence. |
| DependencyGraphs.CombinedMeans | src/dependency_graph.rs:660-671 | A single source of evidence is kept, several become the multiple one. |
| DependencyGraphs.OrderIrrelevant | src/dependency_graph.rs:571-751 | Any reordering of nodes, edges and roots gets the same verdict and, when accepted, the same graph. |
| DependencyGraphs.Idempotent | src/dependency_graph.rs:571-751 | Feeding an accepted graph's parts back gives the same graph, although the definition edges are added again. |
| DependencyGraphs.AcceptedProofs | src/dependency_graph.rs:571-751 | In an accepted graph the proof relations are exactly the payload entries of its proofs, each once. |
| DependencyGraphs.AcceptedSurvival | src/dependency_graph.rs:140-188 | On an accepted graph the survival computation finds dense ids and only valid parent references. |
| DependencyGraphFields.VerdictMeans | src/dependency_graph.rs:584-740 | The constructor accepts exactly when all thirteen checks hold; none can be left out. |
| DependencyGraphFields.NodesMean | src/dependency_graph.rs:584-632 | The checks on nodes: ids from 0, no key twice, every node sound. |
| DependencyGraphFields.AssemblyMeans | src/dependency_graph.rs:1202-1220 | Every global assembly of the source has a node and every such node a definition. |
| DependencyGraphFields.EdgesMean | src/dependency_graph.rs:646-657 | Every edge is sound and every selection among the grouped edges is joined. |
| DependencyGraphFields.ExpansionsJoinedMeans | src/dependency_graph.rs:701-723 | The edges of an expansion are its fields: one to the expansion that discovered it, to its semantic parent, to its call-site parent and to its macro, and one from its owner. |
| DependencyGraphFields.GeneratedMeans | src/dependency_graph.rs:705-719 | An expanded definition has exactly one edge to what generated it. |
| DependencyGraphFields.MaterializationsMean | src/dependency_graph.rs:725-740 | The one materialisation edge of a node leads to the definition it records, and a node that records none has none. |
| DependencyGraphFields.AllocationsMean | src/dependency_graph.rs:1222-1317 | The allocation check holds exactly when every allocation is placed, every edge into one fits a path, and the ordinals fit. |
| DependencyGraphFields.ExactRelationsMean | src/dependency_graph.rs:1633-1819 | The relation check holds exactly when the edges of every relation from every node are numbered from 0 and those of a proof are its payload. |
| DependencyGraphFields.SharedEvidence | src/dependency_graph.rs:660-671 | A grouped edge keeps the evidence all its observations share. |
| DependencyGraphFields.SeveralEvidence | src/dependency_graph.rs:660-671 | Two observations of different evidence make it the multiple one. |
| DependencyGraphFields.MonosReachedMeans | src/dependency_graph.rs:685-695 | A monomorphic node is reached exactly when a path of Mono edges leads to it from the node of some root. |
| DependencyGraphFields.ProofsReachedMeans | src/dependency_graph.rs:696-699 | A proof is reached exactly when a path of proof relations leads to it from a proof some node selects. |
| DependencyGraphFields.AcyclicMeans | src/dependency_graph.rs:2036-2056 | The three relations are acyclic exactly when, for each, numbers can be given to the expansions that fall along every link. |
| NodeFields.ShapeMeans | src/dependency_graph.rs:1903-1962 | Which relations may join two nodes, read off the two nodes: the shape table the other way round. |
| NodeFields.EdgeMeans | src/dependency_graph.rs:1871-1901 | Both ends exist, the relation fits them, and only relations without a place of observation go without sites. |
| NodeFields.ExpansionMeans | src/dependency_graph.rs:591-604 | An expansion is sound exactly when its key is not empty and its references exist. |
| NodeFields.ExpansionKeyMeans | src/dependency_graph.rs:1964-1996 | Its key is the key of what discovered it, else of its call-site parent, else of its semantic parent, else nothing, followed by a part with its own fields and its macro's key. |
| NodeFields.MonoMeans | src/dependency_graph.rs:1146-1200 | What each kind of node must materialise, and what the parts of an allocation path may be. |
| NodeFields.RootMeans | src/dependency_graph.rs:783-873 | For each node, the reasons for which it may be a root. |
| NodeFields.RootsMean | src/dependency_graph.rs:753-782 | No root twice, at most one main and one start root and both or neither, as many assembly roots as assembly nodes, every root sound. |
| NodeFields.ObligationMeans | src/dependency_graph.rs:1385-1407 | An obligation is keyed by its environment and predicate, has nested selections exactly when it has a source, and refers to obligations only. |
| NodeFields.ProjectionMeans | src/dependency_graph.rs:1408-1449 | A projection is keyed by its environment and alias, has owners, a trace exactly when it has a normalised result, and the selected trait, implementation and item its source kind calls for. |
| NodeFields.AssociatedItemMeans | src/dependency_graph.rs:1450-1483 | An associated item is keyed by request and instances, its selection fits, and its targets exist. |
| NodeFields.AssociatedSelectionMeans | src/dependency_graph.rs:1575-1631 | Its selection proof has a source of the recorded kind; only a user-defined one has a leaf and an ancestor path, from the implementation to a trait through the defining and finalizing nodes. |
| NodeFields.CycleMeans | src/dependency_graph.rs:1484-1503 | A cycle has members, obligations all, and is keyed by their keys in order. |
| NodeFields.TraceMeans | src/dependency_graph.rs:1524-1540 | A trace lists its root and what it selected and fulfilled among its obligations, and proofs of the right kind. |
| NodeFields.SelectionSourceMeans | src/dependency_graph.rs:1505-1522 | An implementation goes with a user-defined source only, a builtin trait with a builtin one only. |
| NodeFields.ExactTargetMeans | src/dependency_graph.rs:1997-2007 | Exactly one edge of the kind leaves the node, and it leads to the target; none where there is no target. |
| NodeFields.JoinMeans | src/dependency_graph.rs:953-1034 | What each selected relation demands of a selection. |
| NodeFields.CodegenJoinMeans | src/dependency_graph.rs:1035-1093 | At most one mono edge calls the selected code, and if none does the code is external and without a node, or the item needs none. |
| NodeFields.CallsMeans | src/dependency_graph.rs:1035-1056 | Such an edge leaves the selecting node with the same relation and collection, matches its sites and leads to the callable node of the instance. |
| NodeFields.SitesMatchMeans | src/dependency_graph.rs:1097-1113 | A direct call covers every selected site, by equality or inside a source range; any other use has the same sites. |
| DependencyOrders.EdgesOrdered | src/dependency_graph.rs:458-481 | Edges sort by source, target and relation, each as declared. |
| DependencyOrders.SitesOrdered | src/dependency_graph.rs:440-449 | Sites sort by constructor as declared, source ranges by start and end. |
| DependencyOrders.RootsOrdered | src/dependency_graph.rs:527-544 | Roots sort by node, then by reason as declared. |
| GraphVerdict.VerdictMoved | src/input.rs:1764-1777 | Moving every range of a reduced run's parts into original coordinates changes what the graph constructor answers exactly when all checks before the joins pass and a direct call of a concrete item comes uncovered: then the answer is an invalid proof, otherwise the same error or none. The moved graph is accepted exactly when the graph is and no call is lost. |
| GraphMove.CoveredMoved | src/dependency_graph.rs:1097-1113 | A site of a selection is covered after the move exactly when it is before and is not an empty range that ends the covering one at a seam. |
| GraphMove.SitesMatchMoved | src/dependency_graph.rs:1097-1113 | The sites of a selection match those of a use after the move exactly when they do before and, for a direct call, each stays covered by some site of the use. |
| GraphMove.MatchesKept | src/dependency_graph.rs:1035-1056 | The edges that match a selection are the same before and after the move exactly when none of them comes uncovered. |
| GraphMove.OneMatch | src/dependency_graph.rs:1035-1056 | Among grouped edges and distinct nodes a selection has at most one matching edge. |
| GraphMove.JoinMoved | src/dependency_graph.rs:953-1095 | A selection is joined after the move exactly when it is before and its only counterpart does not come uncovered. |
| LostCalls.CallRejected | src/dependency_graph.rs:953-1113 | Concrete parts and a rewrite: the constructor accepts the parts in the reduced text and rejects them in original coordinates. |
| GraphVerdict.BuildMoved | src/input.rs:1764-1777 | On what the collector builds, the end of a reduced run fails to move exactly when a range lies outside the text, and otherwise answers exactly what the constructor says of the parts before the move, lost calls included. |
| GraphMove.GroupsMoved | src/input.rs:1939-1951 | Grouping the moved edges gives the moved groups, in the same order. |
| GraphMove.DefinitionsObserve | src/input.rs:1862-1898 | The edges of the normalised definition graph observe exactly the moved sites of the edges before. |
| GraphMove.ContainsMoved | src/rewrite.rs:40-55 | Of any two ranges, empty ones included, one contains the other after the move exactly when it does before and the other is not empty at its end at a seam. |
| ProofRelations.InsertTraceExpectations | src/dependency_graph.rs:1821-1847 | Replaces exactly the trace relations' expectations by the trace's targets. |
| ProofRelations.ExpectationsOf | src/dependency_graph.rs:1663-1819 | For every proof kind, the expected targets of every relation are the payload's, and empty where the payload has none; which field that is, `ProofEdges` says relation by relation. |
| ProofRelations.SortedNumbers | src/dependency_graph.rs:1633-1652 | Sorting slots and checking dense ordinals accepts exactly one numbering of the targets, from any input order. |
| ProofRelations.NumbersUnique | src/dependency_graph.rs:1633-1652 | Slots number at most one list of targets. |
| ProofRelations.ValidProofRelations | src/dependency_graph.rs:1633-1819 | Accepts exactly when, for every proof and relation, the edges leaving it number the payload's entries, and every relation edge is densely numbered; in terms of the payload's fields, when the four lemmas below hold of its proofs. |
| ProofEdges.ExactMeans | src/dependency_graph.rs:1633-1819 | The edges of a proof are exact exactly when they are so for every relation. |
| ProofEdges.NumbersMeans | src/dependency_graph.rs:1633-1652 | Exact for one relation: one edge to each target under its position, every edge to a target at its own ordinal, and no ordinal twice. |
| ProofEdges.ObligationEdges | src/dependency_graph.rs:1690-1734 | For an obligation, the field behind every relation: source implementation and builtin trait, nested selections, fulfillments, and the six lists of its trace; no other relation leaves it. |
| ProofEdges.ProjectionEdges | src/dependency_graph.rs:1735-1765 | For a projection: owners, nested obligations, selected trait, implementation and item, and its trace; no other relation leaves it. |
| ProofEdges.AssociatedItemEdges | src/dependency_graph.rs:1766-1803 | For an associated item: selection, leaf, defining and finalizing node and the ancestor path; no other relation leaves it. |
| ProofEdges.CycleEdges | src/dependency_graph.rs:1804-1819 | For a cycle: its members in order and nothing else. |
| ProofRelations.ExactIsPermutation | src/dependency_graph.rs:1633-1819 | With distinct proofs, acceptance means the relation edges are a permutation of one edge per payload entry at its ordinal: none missing, extra, repeated, reordered or retargeted. |
| ProofRelations.PayloadRoundTrip | src/dependency_graph.rs:1633-1819 | Payload to edges in any order and back gives the payload. |
| ProofRelations.ProofRelationSlotsAreUnique | src/dependency_graph.rs:1115-1123 | Accepts exactly when any two relation edges differ in source, relation or ordinal. |
| AllocationPaths.ValidAllocationPaths | src/dependency_graph.rs:1222-1317 | Accepts exactly when each allocation has one parent and one placing edge, every incoming edge is placeable, and sibling ordinals in a role are distinct and smaller than the number of targets; what each of these means of keys and edges, the lemmas below say. |
| AllocationPaths.Place | src/dependency_graph.rs:1231-1274 | Finds the only parent and the only edge of an allocation, or reports that there is not exactly one of each. |
| AllocationPaths.CollectTargets | src/dependency_graph.rs:1276-1305 | Collects for every role exactly the observed targets, or finds an edge that cannot lead to an allocation. |
| AllocationPaths.AllocationChain | src/dependency_graph.rs:1222-1343 | In an accepted graph an allocation with n path parts is reached by a chain of exactly n edges, the k-th carrying part k's relation, collection and site. The chain starts at the one node whose key is the instance with its role, the static, or the vtable with its trait that the root names, and goes through the allocations of the path's prefixes. |
| AllocationPaths.PlacedMeans | src/dependency_graph.rs:1231-1274 | An allocation is placed exactly when one node has the key above it (the root's own for a one-part path, else the allocation of the path without its last part) and one edge from there carries the last part. |
| AllocationPaths.CarriesMeans | src/dependency_graph.rs:1345-1355 | An edge carries a part when it has the part's relation and collection and a site of the part's kind, the same range for a source site. |
| AllocationPaths.IncomingMeans | src/dependency_graph.rs:1276-1305 | Which relations and sites may lead into an allocation. |
| AllocationPaths.TargetsMeans | src/dependency_graph.rs:1276-1305 | Which allocations count as targets of a role. |
| AllocationPaths.OrdinalsMeans | src/dependency_graph.rs:1306-1317 | The ordinals fit exactly when no allocation shares its key and every ordinal is smaller than the number of targets of its role. |
| Survival.ExpansionSourceSurvival | src/dependency_graph.rs:140-188 | Terminates on cycles too and marks exactly the expansions that survive; it gives up only if an id is not the position, a written invocation is an unknown unit, or one of the three references is out of range or to the expansion itself. |
| Survival.SurvivorsGreatest | src/dependency_graph.rs:140-188 | The marked set is the greatest consistent one, hence independent of the scan order; `ConsistentMeans` says what consistent is. |
| Survival.SurvivesMeans | src/dependency_graph.rs:140-188 | An expansion survives exactly when every expansion reached from it by any mix of discovery, semantic-parent and call-site links was made without a written invocation or has one whose unit survives. |
| Survival.ConsistentMeans | src/dependency_graph.rs:165-186 | A set is consistent exactly when each member has no written invocation or a surviving one, and its three references are members too. |
| Reachability.Explore | src/dependency_graph.rs:904-920 | The worklist finds exactly what a path of links reaches from the seeds. |
| Reachability.ReachableMonoNodes | src/dependency_graph.rs:904-920 | Exactly the nodes reachable from the roots over Mono edges. |
| Reachability.ReachableProofNodes | src/dependency_graph.rs:922-951 | Exactly the proofs selected by a reachable node and those reachable from them over proof edges. |
| Reachability.ExpansionRelationsAreAcyclic | src/dependency_graph.rs:2036-2056 | True exactly when, in each of the three relations, every chain of parents ends. |
| Reachability.LoopNeverEnds | src/dependency_graph.rs:2036-2056 | A chain that returns to where it was never ends, so the visited set rejects nothing that ends. |
| CompilerTerms.TermHasher.EncodeDefinitionReference | src/compiler_terms.rs:195-206 | Appends the reference's encoding, or the length error when a key does not fit. |
| CompilerTerms.TermHasher.EncodeDefinitionKey | src/compiler_terms.rs:155-187 | Appends the length and every part in order. |
| CompilerTerms.TermHasher.EncodeExternalDefinitionKey | src/compiler_terms.rs:189-193 | Appends the crate identity and path hash. |
| CompilerTerms.TermHasher.EncodeGeneratedRole | src/compiler_terms.rs:208-216 | Appends the presence byte and the role's tag. |
| CompilerTerms.TermHasher.EmitUsize | src/compiler_terms.rs:241-247 | Appends eight little-endian bytes, or rejects a length that does not fit. |
| CompilerTerms.TermHasher.Reject | src/compiler_terms.rs:149-153 | Keeps the first error only. |
| CompilerTerms.TermHasher.CanonicalizeWith | src/compiler_terms.rs:126-147 | The result depends on the kind and the emitted values alone, not on earlier calls; after any rejection it is the first error and no bytes. |
| CompilerTerms.CutReference | src/compiler_terms.rs:155-216 | Two encodings followed by anything are equal only if the references and what follows are. |
| CompilerTerms.ReferencePrefixFree | src/compiler_terms.rs:195-206 | No reference's encoding is a prefix of another's. |
| CompilerTerms.RunError | src/compiler_terms.rs:126-153 | The error of a run is that of its first rejected value, if any. |
| CompilerTerms.ReferenceRun | src/compiler_terms.rs:126-147 | A run over one reference gives the header followed by the reference's encoding and no error. |
| CompilerTerms.TermsDiffer | src/compiler_terms.rs:126-206 | Equal bytes mean equal kinds and equal references. |
| CompilerTerms.SomeCodecSound | src/compiler_terms.rs:155-206 | The prefix-freeness asked of the encodings of strings and names can be met: a length-prefixed encoding has it. |
| TermBytes.DigitAt | src/compiler_terms.rs:248-262 | Byte k of a number is its digit of weight 256 to the k. |
| TermBytes.TermKindsTagged | src/compiler_terms.rs:50-70 | The tags of kinds follow their declaration. |
| TermBytes.WrittenBytes | src/compiler_terms.rs:157-186 | The bytes of a written part, spelled out. |
| TermBytes.ExpandedBytes | src/compiler_terms.rs:157-186 | The bytes of expanded parts with and without a role, spelled out. |
| TermBytes.UnwrittenBytes | src/compiler_terms.rs:157-186 | The bytes of a compiler-generated and of an injected part, spelled out. |
| TermBytes.ReferenceBytes | src/compiler_terms.rs:189-206 | The bytes of a local and of an external reference, spelled out. |
| TermBytes.RunBytes | src/compiler_terms.rs:126-153 | A run spelled out: the header, the marker of a rejected value, the first error kept, a repeated type written as its first position. |
| SnapshotStores.StepKeeps | src/external.rs:345-504 | Every step of acquiring, reaping, creating, failing and stopping keeps the invariant, whichever process takes it; what the steps achieve, `StoreCreatable`, `OnlyMakeRootAdds`, `StaleReapable`, `FailMeans`, `FilesMean` and `StopFrees` say. |
| SnapshotStores.RunKeeps | src/external.rs:345-504 | The invariant holds in every state of every interleaving, with a stop possible anywhere. |
| SnapshotStores.OneOwner | src/external.rs:370-426 | A token never has two live owners. |
| SnapshotStores.StepSparesLive | src/external.rs:459-504 | No step removes a live store's root, and no other process changes its contents. |
| SnapshotStores.LiveStoresSafe | src/external.rs:345-504 | Along every run a live store keeps its root, its owner file and its sole ownership until its own process stops. Live stores exist: `StoreCreatable`. |
| SnapshotStores.RootsHaveOwners | src/external.rs:370-426 | Every root on disk has its owner file in every reachable state. |
| SnapshotStores.RootNeverTaken | src/external.rs:405-424 | The branch for an already existing root directory is never reached. |
| SnapshotStores.StoreCreatable | src/external.rs:370-412 | When nobody is inside the lock, any process can create a store under any token without an owner file: six steps that end with one more live store of that process, its owner file locked by it, an empty root, and nothing else changed. |
| SnapshotStores.OnlyMakeRootAdds | src/external.rs:405-412 | Making the root is the only step that adds a live store; it always adds exactly one, of its process, under the token and owner file it has locked. |
| SnapshotStores.ClashesSkipped | src/external.rs:386-398 | Each token that already has an owner file costs one attempt and changes nothing else. |
| SnapshotStores.FailMeans | src/external.rs:370-504 | Where an error is returned at once, the process leaves with its handles and their locks and nothing else changes. |
| SnapshotStores.FilesMean | src/external.rs:428-456 | Files appear and vanish in the roots of a process's own stores only, or in a root the reaper has locked. |
| SnapshotStores.StopFrees | src/external.rs:335-345 | A process that stops, however, leaves its files, and gives up its stores, its locks and the parent lock; the others notice nothing else. |
| SnapshotStores.NeverStuck | src/external.rs:370-504 | In every reachable state the process inside the parent lock can leave it by steps of its own, with every live store and root kept and its unfinished owner file removed. |
| SnapshotStores.StaleReapable | src/external.rs:459-504 | When nobody is inside the lock, any store without a live owner can be reaped, and reaping it removes that root and owner file and nothing else. |
| SnapshotStores.PassLeavesOwned | src/external.rs:459-504 | In every run, a complete pass of the reaper leaves no root but those whose store had a live owner when the pass began, and such a store is still alive at its end unless its own process stopped meanwhile. |
| SnapshotLeases.OperationKeeps | src/external.rs:307-324 | Requesting, pinning and releasing keep the store's entries, directories and pins consistent. |
| SnapshotLeases.OperationMeans | src/external.rs:282-324 | What requests, sharing, pinning and releasing do to the handle counts, the pins, the entries and the directories; a directory goes with the last handle of a snapshot that is not pinned. |
| SnapshotLeases.PinnedForGood | src/external.rs:307-324 | A pinned snapshot's directory stays for the rest of the run. |
| SnapshotLeases.PinIdempotent | src/external.rs:307-324 | Pinning twice is pinning once. |
| SnapshotLeases.SharedByKey | src/external.rs:428-456 | While a snapshot is alive, requests with its key, and no others, get it. |
| SnapshotLeases.ProcessStore.Snapshot | src/external.rs:428-456 | Returns the live snapshot of the key or a freshly written one, and nothing when writing fails. |
| SnapshotLeases.ProcessStore.PinSnapshot | src/external.rs:307-324 | Adds the snapshot to the pinned ones, once. |
| SnapshotLeases.ProcessStore.DropHandle | src/external.rs:282-288 | Dropping the last handle of an unpinned snapshot removes its directory; a pinned one stays. |

## Left out

- Everything that reads rustc state (visitors, type-check results, compiler callbacks, `definition_origin`): its results
  are inputs of the model.
- Process driving, invocation and option parsing, Cargo metadata, artifact loading, digests, file output and error
  reporting.
- `macro_repetition_deletions` and `macro_capture_input_deletions`: their deletions enter the model only as members of
  the list that is sorted, merged and spliced.
- `validate_inventory`: what it checks of the units is the precondition `Retention.Inventory`; the set of piece boundaries
  is a parameter.
- SourceRewriting.RewriteSource: without the macro deletions above, so a unit that the code deletes with its commas is an
  entry of a use tree or derive list. The lists may come in any order.
- The tokenizer, delimiter matching, comma segmentation and `derive_attribute_layout`: their results are taken as
  described by the syntax tree. The error branches the code has for a layout that contradicts the inventory are therefore
  not reached in the model.
- UseTrees.PruneWellFormed: when the last two entries of a use group are dropped together the comma before them stays, as
  in the code; the pruned tree then ends in a blank entry, which is well formed.
- Survival.ExpansionSourceSurvival: with invalid parent references the code may or may not notice them before it unmarks
  the node, depending on the scan order; the model states that giving up implies bad input, and that an answer is exact.
- IdentityAssignment.AssignStructuralOrdinals: on an error the slice may be partly overwritten, and nothing is said about
  its contents. In a compared run the members of a public cohort are visited in any order, not by identity, because the
  result does not depend on it. At most 2^32 definitions are taken, which the compiler's 32-bit ids guarantee.
- RangeNormalization.NormalizeExpansionRanges: likewise nothing is said about the slice after an error.
- RangeNormalization.NormalizeMonoRanges: likewise.
- RangeNormalization.NormalizeObservationRanges: likewise.
- Canonical.Canonicalize: compiler ids are unique and the crate root is not below itself; without that the code's
  recursion need not end.
- Expansions.AssignExpansionKeys: the initial ordinals are zero, as the collector builds them, and there are fewer than
  2^32 expansions; the local hash of a compiler id is a separate field.
- ExpansionNumbering.NumberExpansions: the order of key parts is a parameter, any total order; the derived one is an
  instance.
- DependencyGraphs.New: node ids are unbounded naturals; canonical compiler terms, symbols and spans inside payloads are
  opaque values. Sites and evidence are grouped in two passes over the edges instead of one.
- GraphShapes: the tables of valid roots, edge shapes and joins are definitions; `NodeFields` says what they come to, by
  node, by pair of nodes and by relation.
- CompilerTerms.CutReference: rustc's encodings of strings and optional names are parameters assumed prefix-free; keys
  are shorter than 2^64 parts.
- CompilerTerms.TermHasher.CanonicalizeWith: the values a caller emits are a list of steps. Of the shorthand mechanism
  only the replacement by an earlier position is modelled, not the rule for when a shorthand pays off; predicate
  shorthands share the type shorthands' model.
- SnapshotStores.RunKeeps: listing the directory is modelled by choosing any token at each turn; names that are not valid
  tokens, permissions, programs other than this one touching the parent directory, and the analyzer's own temporary
  directories are not modelled.
- SnapshotStores.StaleReapable: shows that the reaping of one store can go through; no fairness between processes is
  stated.
- SnapshotStores.StoreCreatable: likewise for creation, in an attempt whose calls succeed.
- SnapshotStores.PassLeavesOwned: a pass is complete when it visits every owner file present at its start, which is what
  iterating the directory is taken to do.
- SnapshotLeases.ProcessStore.Snapshot: writing the artifacts either succeeds or fails as a whole; the contents of a
  snapshot are not modelled.
