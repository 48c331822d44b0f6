# Maya node-graph, selection and export helpers in Dafny

This project models three Python modules of a collection of Maya pipeline
scripts:

- **Dependency-graph traversal.** `traverse_graph` is the breadth-first walk
  over a node's source or destination connections, with a depth ceiling and a
  node-type filter. The model also covers the queries built on it:
  `find_connected_nodes_by_type`, `get_shading_network`, and the indentation
  of `print_node_tree`. It covers the per-node lookups `get_all_connections`
  and `get_node_info` as well.
- **Selection helpers.** These are the bounded undo/redo `SelectionStack`,
  `_apply_selection`, the `apply_filter` chain of comprehensions, and the
  operator table `_compare_values`.
- **Scene export pipeline.** The model covers:
  - the suffix check against `SUPPORTED_FORMATS`;
  - the validator run;
  - the `ExportResult` that `SceneExporter.export` builds;
  - the four `SceneValidator` checks that `export_scene` installs;
  - the per-reference loop of `batch_export_references`.

Maya itself is abstracted:

- **Graph.** The scene graph is a finite map from node names to a `Node`.
  A `Node` holds the node's type, its reference flag, its source and
  destination connections, and its plug list. Every connection names a node
  of the map.
- **Queries.** Host queries the filter makes become a `Host` record of
  functions: `cmds.nodeType`, `referenceQuery`, `_is_visible`, and the
  regular-expression search.
- **Scene checks.** The scene facts the checks read become a `SceneState`.
- **Exceptions.** Raised exceptions become explicit outcomes:
  - `Raised` for a validator;
  - `WriteRaised` for the export call;
  - `None` where a tuple unpacking, an index or a mixed-type comparison raises.

The Python generator `traverse_graph` is modelled as the complete sequence
of `(node, depth)` pairs it yields. A caller that stops early sees a prefix.

Modules:

- `NodeGraph`: the graph and `TraversalDirection`.
- `Traversal`: the walk as a step function with a five-part loop invariant.
- `TraversalProperties`: reachability and which connections the walk reads,
  plus a three-node cycle worked through step by step.
- `GraphQueries`: the queries and lookups.
- `SelectionHistory`: the stack and `_apply_selection`.
- `SelectionFilters`: `apply_filter` and `_compare_values`.
- `SceneExporter`: the export pipeline.
- `Text`, `Seqs` and `Wrappers`: the string, list and option helpers these
  share.

Behaviour of the code as written, which the model keeps:

- **`get_all_connections`.** A connection pair whose first plug belongs to
  the queried node is recorded with that node as the destination, and the
  other node as the source. Any other pair is recorded in plug order.
  - So between the queried node and another node, the queried node is the
    destination whichever side of the connection it is on
    (`QueriedNodeIsDestination`).
  - The queried node appears as a source only on a connection from the node
    to itself, where both plugs are on it.
- **`_apply_selection`.** It pushes the selection from before each change and
  never the selection after it. Undo steps back past the current entry.
  - After one change on a fresh stack there is nothing to undo
    (`FirstChangeCannotBeUndone`).
  - After two changes, undo restores the selection from before the first
    one (`UndoSkipsLatestChange`).

## Model

| member | source | states |
|---|---|---|
| NodeGraph.Next | maya_node_graph.py:173-185 | A walk expands source connections for `UPSTREAM`, and destination connections for `DOWNSTREAM`. For `BOTH` it expands the source list followed by the destination list, which fixes the queue order. Every neighbour is a node of the graph. |
| Traversal.Enqueue | maya_node_graph.py:187-189 | Every neighbour not yet visited is queued one level deeper. No visited node is queued. |
| Traversal.EnqueueKeepsOrder | maya_node_graph.py:187-189 | The queued pairs are the unvisited neighbours in their listed order, repeats included, as a comprehension keeps them, each one level deeper. |
| Traversal.Step | maya_node_graph.py:156-189 | One dequeue either shortens the queue without visiting anything new, or visits a new node. This is the measure by which the loop terminates, even on cyclic graphs. |
| Traversal.StepPreservesInv | maya_node_graph.py:153-189 | Each dequeue keeps the loop invariant. Visited nodes were yielded or pruned, and yielded nodes are unique, admitted and within the ceiling. The queue spans two adjacent depths. Every pair has a yielded parent, and every neighbour of a yielded node is visited, queued or past the ceiling. |
| Traversal.Run | maya_node_graph.py:156-189 | The `while queue:` loop ends with an empty queue and the invariant intact. |
| Traversal.FinishedWalkYields | maya_node_graph.py:149-171 | After the loop: nothing is yielded exactly when the filter prunes the start. Otherwise the start comes first at depth 0. Nodes are unique, admitted, within the ceiling, and in non-decreasing depth. Each later pair is a neighbour of an earlier one, one level deeper. |
| Traversal.FinishedWalkIsClosed | maya_node_graph.py:158-189 | After the loop, every neighbour of a yielded node is yielded, pruned by the filter, or past the ceiling. |
| Traversal.TraverseGraph | maya_node_graph.py:131-189 | A missing start yields nothing. Otherwise the contract holds the full set of facts above: start first, no repeats even on cycles, every node admitted, ceiling respected, FIFO depth order, every pair parented, and the result closed under neighbours. |
| TraversalProperties.DiscoveryPath | maya_node_graph.py:158-189 | Every yielded pair at depth d ends a chain of d connections from the start, each node of which passes the filter. |
| TraversalProperties.YieldedIffReachable | maya_node_graph.py:131-189 | With no ceiling, a node is yielded exactly when a chain of connections whose nodes all pass the filter leads to it from the start. |
| TraversalProperties.ZeroCeilingYieldsOnlyStart | maya_node_graph.py:161-162 | With `max_depth = 0` the result is the start alone, or nothing when the start is missing or pruned. |
| TraversalProperties.TraversalReadsOnlyItsDirection | maya_node_graph.py:166-185 | Two graphs with the same nodes, types and neighbours in the walk's direction give the same walk. |
| TraversalProperties.UpstreamIgnoresDestinations | maya_node_graph.py:175-179 | An `UPSTREAM` walk does not depend on destination connections. |
| TraversalProperties.DownstreamIgnoresSources | maya_node_graph.py:181-185 | A `DOWNSTREAM` walk does not depend on source connections. |
| TraversalProperties.CycleVisitsEachNodeOnce | maya_node_graph.py:153-164 | On the cycle A→B→C→A, the walk from A yields A, B and C once each, at depths 0, 1 and 2, and stops. |
| TraversalProperties.CycleWithCeilingOne | maya_node_graph.py:161-162 | With ceiling 1 the same walk stops after B. |
| TraversalProperties.CyclePrunedAtB | maya_node_graph.py:166-169 | A filter admitting only transforms prunes B. C passes the filter but is reachable only through B, so it is never yielded. |
| GraphQueries.FindConnectedNodesByType | maya_node_graph.py:192-214 | The result lists the walked nodes of the target type, in walk order, without repeats. |
| GraphQueries.FoundIffConnected | maya_node_graph.py:192-214 | A node is found exactly when it has the target type and some chain of connections in the direction leads to it from the start. |
| GraphQueries.BucketByKind | maya_node_graph.py:229-233 | The type-to-list loop makes a bucket for exactly the types that occur. Each bucket lists the nodes of its type in input order. |
| GraphQueries.GetShadingNetwork | maya_node_graph.py:217-235 | The upstream walk with ceiling 20 is partitioned by node type, keeping walk order. |
| GraphQueries.ShadingNetworkBuckets | maya_node_graph.py:217-235 | A node is in the bucket of type t exactly when it was walked and has type t. No walked node is deeper than 20. |
| GraphQueries.IndentIsDepth | maya_node_graph.py:361-364 | A tree line begins with exactly twice its depth in spaces, followed by the branch glyph, node and type. |
| GraphQueries.TreeLines | maya_node_graph.py:361-364 | There is one line per walked pair, in order, and each line's indentation gives back that pair's depth. |
| GraphQueries.NodeTreeLines | maya_node_graph.py:348-364 | The printed tree has as many lines as the walk with defaults `UPSTREAM` and ceiling 5. Line i is indented by twice pair i's depth. |
| GraphQueries.ReadPair | maya_node_graph.py:107-126 | A pair is unreadable exactly when a plug lacks a `.`. Otherwise the record cuts each plug at its first `.`. The queried node is the destination when its plug comes first, and the pair is taken in plug order otherwise. |
| GraphQueries.ReadPairs | maya_node_graph.py:106-126 | The loop succeeds exactly when the plug list has even length and every plug has a `.`. It then yields one record per consecutive pair. |
| GraphQueries.RecordsOfPairs | maya_node_graph.py:106-126 | Record k comes from plugs 2k and 2k+1. |
| GraphQueries.GetAllConnections | maya_node_graph.py:89-128 | A missing node gives no records. Otherwise the result is `None` exactly when the loop raises, and else has half as many records as plugs, record k read from plugs 2k and 2k+1. |
| GraphQueries.ReadPairsFlatten | maya_node_graph.py:106-126 | Reading back the plug list of readable records gives the same records. |
| GraphQueries.QueriedNodeIsDestination | maya_node_graph.py:113-126 | A pair joining the queried node to another node is recorded with the queried node as destination, whichever plug comes first. |
| GraphQueries.Namespace | maya_node_graph.py:72-74 | With a `:` in the name, the namespace, a `:` and the last segment rebuild the name. Without one, the namespace is empty. |
| GraphQueries.NamespaceOfQualified | maya_node_graph.py:72-74 | `ns:short` with no `:` in `short` has namespace `ns`, including nested namespaces. |
| GraphQueries.GetNodeInfo | maya_node_graph.py:55-86 | `None` exactly for a missing node. Otherwise it reports the node's name, type, reference flag and namespace, and its source and destination neighbours, each without repeats and with the same members as the host's lists. |
| SelectionHistory.NewHistory | maya_selection_utils.py:64-67 | A new stack is empty, has index -1 and keeps its size limit (default 50). |
| SelectionHistory.Push | maya_selection_utils.py:69-81 | The redo tail is discarded and the snapshot appended and made current. When over the limit the oldest entry is dropped, so the stack never exceeds the limit. The entries are the retained suffix of the old ones up to the current entry, then the new snapshot. |
| SelectionHistory.Undo | maya_selection_utils.py:83-89 | Undo succeeds exactly when the index is past the first entry. It then moves back one step and restores that entry; otherwise nothing changes. |
| SelectionHistory.Redo | maya_selection_utils.py:91-97 | Redo succeeds exactly when the index is before the last entry. It then moves forward one step and restores that entry; otherwise nothing changes. |
| SelectionHistory.NewHistoryIsStuck | maya_selection_utils.py:64-97 | A fresh stack can be neither undone nor redone. |
| SelectionHistory.UndoThenRedo | maya_selection_utils.py:83-97 | A successful undo followed by redo returns to the same stack and restores the entry that was current. |
| SelectionHistory.RedoThenUndo | maya_selection_utils.py:83-97 | A successful redo followed by undo returns to the same stack and restores the entry that was current. |
| SelectionHistory.NoRedoAfterPush | maya_selection_utils.py:69-97 | After a push there is nothing to redo. |
| SelectionHistory.UndoAfterPush | maya_selection_utils.py:69-89 | With room for two entries, undoing a push restores the entry that was current before it, even when the push dropped the oldest entry. |
| SelectionHistory.ApplySelection | maya_selection_utils.py:307-321 | An empty node list changes nothing and selects nothing. Otherwise the current selection is pushed and the select call carries the nodes and the mode. |
| SelectionHistory.FirstChangeCannotBeUndone | maya_selection_utils.py:307-312 | After one selection change on a fresh stack, undo reports nothing to undo. |
| SelectionHistory.UndoSkipsLatestChange | maya_selection_utils.py:307-312 | After two changes on a fresh stack, undo restores the selection from before the first change. |
| SelectionFilters.CriteriaMeanAdmits | maya_selection_utils.py:137-163 | Passing every enabled comprehension is exactly passing every criterion the filter sets. Unset (falsy) criteria admit everything. |
| SelectionFilters.ApplyFilter | maya_selection_utils.py:125-165 | The result keeps input order and only drops nodes. A node is kept exactly when it is an input and passes every criterion. An input without repeats gives an output without repeats. |
| SelectionFilters.ApplyFilterIsOnePass | maya_selection_utils.py:135-165 | The chain of comprehensions equals one comprehension over the conjunction of the criteria. |
| SelectionFilters.NoFilterKeepsAll | maya_selection_utils.py:135-165 | A default filter returns the input unchanged, order and duplicates included. |
| SelectionFilters.NamespaceFilterKeepsQualified | maya_selection_utils.py:149-151 | A namespace filter keeps exactly the names containing `ns:`, and `prefix + ns + ":" + short` always qualifies. |
| SelectionFilters.CompareValues | maya_selection_utils.py:294-304 | An unknown operator falls back to `==`. `==` and `!=` answer equality and inequality. An ordering operator raises exactly between a number and a string. Between two numbers it is the numeric order, and between two strings it is Python's string order (`LexLess`, `LexLessEq`), operands swapped for `>` and `>=`. |
| SelectionFilters.LexLessIsFirstDifference | maya_selection_utils.py:299 | Python's `<` on strings holds exactly when the first string is a proper prefix of the second, or holds the smaller code point at the first position where they differ. |
| SelectionFilters.OperatorDuality | maya_selection_utils.py:296-303 | `!=` is the negation of `==`. `>` and `>=` are `<` and `<=` with swapped operands. |
| SelectionFilters.OrderingOfLikeValues | maya_selection_utils.py:296-303 | Between two numbers or two strings, `<=` is `<` or `==`, and exactly one of `<`, `==` and `>` holds. |
| SelectionFilters.LexTrichotomy | maya_selection_utils.py:298-300 | Python string order is total and strict. |
| SceneExporter.Suffix | maya_scene_exporter.py:140 | The suffix is empty, or a dot followed by at least one character without `.` or `/`, ending the file name. |
| SceneExporter.SuffixOfStemAndExtension | maya_scene_exporter.py:140 | A file `stem.ext` with a non-empty stem has the suffix `.ext`, whatever dots the stem or directory contain. |
| SceneExporter.HiddenFileHasNoSuffix | maya_scene_exporter.py:140 | A name like `.ma` has no suffix. |
| SceneExporter.ValidateConfig | maya_scene_exporter.py:138-144 | The config is valid exactly when the lower-cased suffix is one of `.ma`, `.mb`, `.fbx`, `.abc`, `.usd`. |
| SceneExporter.ValidateConfigByExtension | maya_scene_exporter.py:24-30 | `dir/stem.ext` is accepted exactly when `.ext` lower-cased is a key of `SUPPORTED_FORMATS`, so `.MA` is accepted too. |
| SceneExporter.ValidatorErrorsAreFailures | maya_scene_exporter.py:146-156 | The loop's errors are the messages of the failing validators, in validator order. |
| SceneExporter.RunValidators | maya_scene_exporter.py:146-156 | Validation passes exactly when there are no errors, which is exactly when every validator returned true. The errors are the failures' messages in order. |
| SceneExporter.CreateResultAbsentIsEmpty | maya_scene_exporter.py:190-196 | A missing error or warning list and an empty one build the same result. A failed result does not depend on the configured path. |
| SceneExporter.CreateResult | maya_scene_exporter.py:179-196 | The output path is present exactly on success. Missing error or warning lists become empty lists. |
| SceneExporter.Export | maya_scene_exporter.py:109-136 | Success exactly when the suffix is supported, every validator passes and the write goes through. A bad suffix gives the single error `Invalid export configuration`. Failing validators give their messages, and a raising write gives its message. The path is reported only on success, and warnings are always empty. |
| SceneExporter.InvalidConfigIgnoresTheRest | maya_scene_exporter.py:120-121 | With an unsupported suffix neither the validators nor the write affect the result. |
| SceneExporter.FailedValidationIgnoresWrite | maya_scene_exporter.py:123-126 | Once a validator fails, the write outcome does not matter. |
| SceneExporter.CheckBrokenReferences | maya_scene_exporter.py:76-88 | The check passes exactly when every reference reports loaded. An unloaded or raising reference fails it. |
| SceneExporter.CheckDuplicateNames | maya_scene_exporter.py:90-99 | The check passes exactly when the short names are pairwise distinct. |
| SceneExporter.SameShortNameIsDuplicate | maya_scene_exporter.py:90-99 | Two paths with the same short name under different parents fail the check. |
| SceneExporter.SceneValidatorsPassIffClean | maya_scene_exporter.py:59-99 | The four checks all pass exactly on a clean scene: saved, no unknown nodes, every reference loaded, short names distinct. |
| SceneExporter.ExportScene | maya_scene_exporter.py:199-232 | With validation, success means a supported suffix, a clean scene and a successful write. Whatever `validate` is, the path is reported exactly on success and warnings are empty. An unsupported suffix gives the single error `Invalid export configuration`. With validation and an unclean scene, the errors are the failing checks' messages in installation order. When no check fails, the errors are empty, or the write's message when it raises. Without validation, the scene plays no part and the export runs with no validators. |
| SceneExporter.FormatType | maya_scene_exporter.py:226 | An accepted path records one of the format names of `SUPPORTED_FORMATS`, and a path `_validate_config` rejects records `mayaAscii`. |
| SceneExporter.FormatOfExtension | maya_scene_exporter.py:226 | For `dir/stem.ext`, the recorded format is exactly `SUPPORTED_FORMATS["." + ext.lower()]` when that key exists, so `scene.FBX` records `FBX export`, and it is `mayaAscii` otherwise. |
| SceneExporter.SceneErrorsNameFailedChecks | maya_scene_exporter.py:59-99 | The validation errors name each check the scene fails and nothing else: `check_unsaved_changes` exactly when the scene is modified, and `check_unknown_nodes` exactly when unknown nodes exist. `check_broken_references` appears exactly when a reference is unloaded or broken, and `check_duplicate_names` exactly when two short names clash. |
| SceneExporter.FailureMessageNamesValidator | maya_scene_exporter.py:152 | Two validators report the same `Validation failed` error exactly when they have the same name. |
| SceneExporter.UnvalidatedExportIgnoresScene | maya_scene_exporter.py:215-222 | With `validate=False` the scene state does not affect the result. |
| SceneExporter.ReferenceResultOutcome | maya_scene_exporter.py:255-272 | A reference with no nodes fails with the single error naming its namespace, and has no path. Otherwise success means the target `<dir>/<namespace><suffix>` has a supported suffix and the write goes through. |
| SceneExporter.BatchExportReferences | maya_scene_exporter.py:235-274 | There is one entry per distinct stripped namespace. A namespace that several references share holds the last one's result. |
| SceneExporter.EmptyReferenceFails | maya_scene_exporter.py:262-272 | A node-less reference not overridden by a later one is reported as a failure naming its namespace. |
| Seqs.StoreAllLastWins | maya_scene_exporter.py:252-272 | Assigning results to keys one after another leaves each key with the value stored last. |

## Left out

- Logging, `print` output, timing (`duration_seconds`, `datetime.now`, `cmds.timerX`) and the snapshot timestamp are not modelled.
- `_ensure_output_directory` and `output_dir.mkdir` are not modelled: the directory creation and the `cmds.file` export call are one `WriteOutcome` parameter. A `RuntimeError` from them becomes `WriteRaised`. Other exception types are not modelled; they propagate out of `export` in the source.
- `_execute_export` is left out. It chooses the file type from `SUPPORTED_FORMATS` and the `exportSelected`/`exportAll` flag, and passes them to `cmds.file`, which is foreign.
- `ExportConfig.frame_range` and `include_references` are not modelled; the export code never reads them. `format_type` is computed by `ExportScene` but is also unread.
- SceneExporter.Suffix: follows `PurePath.suffix` as defined up to Python 3.12, on a normalized POSIX path. Windows separators, trailing-slash normalization and the 3.13 treatment of names made only of dots are not modelled.
- Text.ToLower: lower-cases ASCII letters only, not the full Unicode `str.lower`.
- SceneExporter.JoinPath: joins with `/` and does not model `Path` normalization (an empty or `.` directory, repeated separators).
- SelectionFilters.ApplyFilter: the regular-expression engine is a `search` parameter of `Host`. `cmds.nodeType`, the reference query and `_is_visible` are parameters too. An invalid pattern that makes `re.compile` raise is not modelled.
- SelectionFilters.CompareValues: ints, floats and bools are one numeric kind compared as reals. Float NaN and infinity are not modelled.
- GraphQueries.GetShadingNetwork: the result is a map, so the order in which the Python dict first meets each node type is not kept; each bucket keeps walk order.
- SceneExporter.BatchExportReferences: the result is a map, so the dict's key order (the order of the references) is not kept.
- SceneExporter.Export: the reported output path is the configured string itself. `Path` normalization (`a//b.ma` reported as `a/b.ma`) is not modelled.
- GraphQueries.GetNodeInfo: `list(set(...))` has no defined order in Python. The model fixes it to first occurrence, so only membership and absence of repeats are promised.
- TraversalProperties.YieldedIffReachable: completeness is proved only for walks without a depth ceiling. With a ceiling, `DiscoveryPath` and the closure clause of `TraverseGraph` give the bounds instead.
- NodeGraph.Next: the host graph is assumed consistent: every connection `listConnections` reports names an existing node.
- Traversal.TraverseGraph: the generator's laziness is not modelled. A consumer that stops early sees a prefix of the modelled sequence.
- `SelectionSnapshot.restore` and the `cmds.select` calls are not executed; the model returns the snapshot to restore and the select call to issue. The module-level `undo_selection` and `redo_selection` wrappers are `Undo` and `Redo` on that stack.
- `DGIterator`, `find_texture_nodes`, `get_mesh_shaders`, `get_selection`, `select_hierarchy`, `select_by_type`, `select_by_attribute`, `_is_visible`, `select_similar`, the grow, shrink and set helpers, and the deformer, Qt and USD modules are not part of this model. They are host-API wrappers outside the traversal, selection-history, filter and export core.
