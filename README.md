# Placing sequenced samples on a reference tree

This project models the tree-placement step of a clade-assignment web
application (`locateInTree` and the helpers beside it), and proves
properties of the model. The step takes:
- a list of sequence-analysis results, called samples;
- a reference tree document in the Auspice v2 format;
- the reference sequence.

It then proceeds in four stages:

1. **Accumulation.** It walks the tree once from the root. Each node gets a
   map from genome position to derived base: its parent's map, with the
   node's own branch substitutions ("C123T" tokens) written over it.
2. **Placement.** It considers every sample that reports no errors, in input
   order. It searches the whole tree for the first node, in preorder, at the
   smallest distance from the sample. There it attaches a new leaf, which
   carries the sample's residual substitutions, a divergence and the
   sample's labels.
3. **Cleanup.** It removes the transient maps.
4. **Decoration.** It adds two colourings and fixed display defaults to the
   document's metadata.

Any unparsable token, or a branch substitution whose ancestral base
contradicts the map the node inherited, aborts the whole run.

The model is split into modules:
- `Types`: the values the step reads.
- `MutationCodec`: the token form, and `parseMutationOrThrow`.
- `Accumulate`: one branch's replay over its parent's map.
- `Distance`: `calculate_distance`.
- `Differences`: `get_differences`.
- `ArgMin`: the first-minimum reference for `closest_match`.
- `PlacementTree`: the working tree as a class over an arena, with the
  traversals `mutations_on_tree`, `closest_match`, `attach_to_tree` and
  `remove_mutations` as methods.
- `Locate`: the run itself.

Each method is proved against a specification function: `ApplyTokens`,
`MutationsWalk`, `Dist`, `Diffs`, `FirstMin`/`Winner`, `Attached` and
`PlaceAll`. Lemmas then state what the source promises about those
functions.

The tree is held as an arena:
- node `j` is `nodes[j]` and the root is node 0;
- each node lists its children by id;
- every child has a larger id than its parent.

The per-node maps (`node.mutations` in the source) live in a side table
keyed by node id. Attaching a leaf appends a node and extends its base
node's children list, so an existing node's id never changes.

Behaviour kept as written:
- **Which map the consistency check reads.** The check at
  `locateInTree.ts:86` reads the map inherited from the parent
  (`mutations`), not the map being built (`tmp_muts`). Two substitutions at
  one position on the same branch are therefore never checked against each
  other (`Accumulate.RepeatedPositionUnchecked`).
- **The agreement counter.** The counter named `shared_differences` counts
  the sample substitutions that agree with the node. The formula is kept
  verbatim, and `Distance.DistCountsDifferingPositions` proves what it
  measures: the number of positions recorded by only one side, or by both
  with different bases, provided the sample names each position at most
  once. A position a branch has reverted to the reference base stays
  recorded in the node's map, so it counts as a difference even when the
  sample has the reference base there.

## Model

| member | source | states |
|---|---|---|
| MutationCodec.ParseMutationOrThrow | packages/web/src/algorithms/tree/locateInTree.ts:52-64 | a token yields its triple exactly when it parses; otherwise the error names the token |
| MutationCodec.ParseFormat | packages/web/src/algorithms/tree/locateInTree.ts:52-64 | every token the formatter writes parses back to the same ancestral base, position and derived base |
| MutationCodec.Parse | packages/web/src/algorithms/tree/locateInTree.ts:52-61 | a token parses exactly when it has at least three characters and everything between the first and the last is a decimal digit; the parsed bases are the first and last characters, whatever they are |
| MutationCodec.Format | packages/web/src/algorithms/tree/locateInTree.ts:132-137 | the written token starts with the ancestral base, ends with the derived base, and has only decimal digits between them (stands in for `formatMutation`) |
| PlacementTree.GetNodeStruct | packages/web/src/algorithms/tree/locateInTree.ts:66-77 | the new leaf is named `<seqName>_clades`, flagged new, labelled with the sample's clade and QC status, and has no children, branch tokens or divergence yet |
| PlacementTree.WorkingTree.constructor | packages/web/src/algorithms/tree/locateInTree.ts:199-200 | the working copy starts as the given tree with no node carrying a map, and with the parent of each node derived from the children lists |
| Accumulate.OverlayAt | packages/web/src/algorithms/tree/locateInTree.ts:80-96 | the accumulated map holds, at each position, the derived base of the branch's last substitution there, or else the inherited base; it has no other positions |
| Accumulate.ApplyTokens | packages/web/src/algorithms/tree/locateInTree.ts:84-92 | replaying a branch fails only on a token that does not parse or contradicts the inherited map, and on success keeps every position the inherited map records |
| Accumulate.ApplyTokensSpec | packages/web/src/algorithms/tree/locateInTree.ts:79-96 | a branch replays without error exactly when every token parses and agrees with the inherited map, and the result is the inherited map overwritten by the branch's substitutions in order |
| Accumulate.ApplyFormatted | packages/web/src/algorithms/tree/locateInTree.ts:84-92 | formatted substitutions replay exactly when consistent with the inherited map, giving the overlay of those substitutions |
| Accumulate.RepeatedPositionUnchecked | packages/web/src/algorithms/tree/locateInTree.ts:86-87 | the check reads the inherited map: two substitutions at one fresh position on one branch are both accepted, and the last one wins |
| Accumulate.ErrorSticks | packages/web/src/algorithms/tree/locateInTree.ts:84-91 | the first failing token decides the branch's error; later tokens cannot change it |
| Accumulate.ApplyBranch | packages/web/src/algorithms/tree/locateInTree.ts:80-94 | the branch loop returns exactly the specified replay, stopping at the first unparsable or inconsistent token |
| PlacementTree.WalkSound | packages/web/src/algorithms/tree/locateInTree.ts:79-103 | started with its parent's accumulated map, the traversal either records every node of the subtree with its accumulated map, or fails with the error of some node of the subtree; it leaves the maps of nodes outside the subtree unchanged |
| PlacementTree.ChildrenSound | packages/web/src/algorithms/tree/locateInTree.ts:97-102 | the children loop extends the recorded part of the subtree child by child, or fails with the error of a node in it |
| PlacementTree.AccumAt | packages/web/src/algorithms/tree/locateInTree.ts:79-103 | a node's accumulated map fails only on a token error of some branch on its root path |
| PlacementTree.MutationsWalk | packages/web/src/algorithms/tree/locateInTree.ts:79-103 | the traversal (a node, then its children in order, stopping at the first error) records maps only for nodes of the tree |
| PlacementTree.ChildrenFrom | packages/web/src/algorithms/tree/locateInTree.ts:97-102 | the children loop records maps only for nodes of the tree |
| PlacementTree.AllRecordedIsRecorded | packages/web/src/algorithms/tree/locateInTree.ts:79-103 | every node carries its accumulated map exactly when every node of the root's preorder does |
| PlacementTree.NodeMap | packages/web/src/algorithms/tree/locateInTree.ts:109-119 | a node that carries no map reads as the empty map (`?.` and `?? 0`) |
| PlacementTree.WorkingTree.MutationsOnTree | packages/web/src/algorithms/tree/locateInTree.ts:79-103 | the recursive traversal returns the specified outcome and leaves the specified map table; on a failing branch the node's map is not written |
| PlacementTree.WorkingTree.MutationsOnChildren | packages/web/src/algorithms/tree/locateInTree.ts:97-102 | the loop over the children visits them in order, each with the node's map, and stops at the first failure |
| Distance.DistCountsDifferingPositions | packages/web/src/algorithms/tree/locateInTree.ts:105-121 | for a sample naming each position once, the distance is the number of positions recorded by only one side, or by both with different bases |
| Distance.DistNonNegative | packages/web/src/algorithms/tree/locateInTree.ts:105-121 | for such a sample the distance is never negative |
| Distance.DistBaseCases | packages/web/src/algorithms/tree/locateInTree.ts:119-120 | at the root's empty map the distance is the sample's substitution count; a sample without substitutions is at the node's map size |
| Distance.Dist | packages/web/src/algorithms/tree/locateInTree.ts:119-120 | the distance lies between the difference and the sum of the two sides' substitution counts |
| Distance.Disagreements | packages/web/src/algorithms/tree/locateInTree.ts:106-117 | agreeing and disagreeing sample substitutions together are at most the sample's substitutions |
| Distance.CalculateDistance | packages/web/src/algorithms/tree/locateInTree.ts:105-121 | the counting loop returns the distance formula |
| Differences.DiffsFacts | packages/web/src/algorithms/tree/locateInTree.ts:123-143 | one residual per sample substitution that does not agree with the node; each carries the node's base where the node records one, or else the reference base; each is at a sample position |
| Differences.Diffs | packages/web/src/algorithms/tree/locateInTree.ts:126-140 | at most one residual per sample substitution; where the node records the position, the residual's ancestral base is the node's base and its derived base differs from it |
| Differences.DiffsReplay | packages/web/src/algorithms/tree/locateInTree.ts:123-143 | the residual tokens replay onto the base node's map without error |
| Differences.LeafMatchesSample | packages/web/src/algorithms/tree/locateInTree.ts:160-181 | for a sample naming each position once, the leaf's map holds the sample's base at every sample position and the base node's map everywhere else |
| Differences.GetDifferences | packages/web/src/algorithms/tree/locateInTree.ts:123-143 | the loop emits the formatted residuals, in sample order |
| ArgMin.FirstMin | packages/web/src/algorithms/tree/locateInTree.ts:145-158 | the chosen distance is no larger than any other, and strictly smaller than every earlier one |
| ArgMin.FirstMinAppend | packages/web/src/algorithms/tree/locateInTree.ts:150-154 | a later candidate replaces the current best only when strictly smaller |
| PlacementTree.WinnerIsMinimal | packages/web/src/algorithms/tree/locateInTree.ts:145-158 | the search's winner is in the subtree, its distance is reported, and no node of the subtree is closer |
| PlacementTree.SearchStep | packages/web/src/algorithms/tree/locateInTree.ts:149-155 | one child's subtree winner replaces the current one exactly when strictly closer; ties keep the earlier node in preorder |
| PlacementTree.WorkingTree.ClosestMatch | packages/web/src/algorithms/tree/locateInTree.ts:145-158 | the search returns the first node of the subtree in preorder at the smallest distance, and that distance |
| PlacementTree.Attached | packages/web/src/algorithms/tree/locateInTree.ts:160-163 | the leaf becomes the base node's last child; no other node changes, and the arena keeps its shape |
| PlacementTree.BaseDiv | packages/web/src/algorithms/tree/locateInTree.ts:167 | an absent divergence reads as 0 |
| PlacementTree.LeafDiv | packages/web/src/algorithms/tree/locateInTree.ts:167-168 | the new leaf's divergence is its base node's plus one per residual substitution |
| PlacementTree.PlacedLeaf | packages/web/src/algorithms/tree/locateInTree.ts:170-172 | the new leaf is the sample's node struct carrying the residual tokens as its branch substitutions and the computed divergence, with no children |
| PlacementTree.AttachKeepsAccumulated | packages/web/src/algorithms/tree/locateInTree.ts:174-180 | after an attachment, every node, the new leaf included, still carries its accumulated map |
| PlacementTree.AttachSound | packages/web/src/algorithms/tree/locateInTree.ts:160-181 | an attachment keeps the arena a tree with matching parents, keeps the map table within the arena, and keeps every map accumulated |
| PlacementTree.WorkingTree.AttachToTree | packages/web/src/algorithms/tree/locateInTree.ts:160-181 | the leaf is appended as the base node's last child, carrying the residual tokens and the divergence of the base (0 when absent) plus their count; its map is the base node's map with the residuals written over it |
| PlacementTree.WorkingTree.LeafMutations | packages/web/src/algorithms/tree/locateInTree.ts:174-178 | re-parsing the residual tokens over a copy of the base map yields the base map overwritten by the residuals |
| PlacementTree.WorkingTree.RemoveMutations | packages/web/src/algorithms/tree/locateInTree.ts:183-192 | every map of the subtree is dropped and no other is touched; from the root, no map is left |
| PlacementTree.WorkingTree.RemoveFromChildren | packages/web/src/algorithms/tree/locateInTree.ts:188-191 | the loop drops the maps of every child's subtree |
| Locate.VersionOf | packages/web/src/algorithms/tree/locateInTree.ts:203 | an absent version reads as "undefined" |
| Locate.DecorateMeta | packages/web/src/algorithms/tree/locateInTree.ts:229-239 | the existing colourings are kept and the QC-status and new-node colourings follow them; the display defaults are replaced by the fixed ones |
| Locate.Placeable | packages/web/src/algorithms/tree/locateInTree.ts:219-221 | a sample is placed exactly when its error list is empty; an absent list counts as empty |
| Locate.PlacedSamplesFilter | packages/web/src/algorithms/tree/locateInTree.ts:217-220 | of N samples of which k report errors, N - k are placed: every sample without errors, and no other |
| Locate.ClosestNode | packages/web/src/algorithms/tree/locateInTree.ts:223 | the node chosen for a sample is a node of the tree |
| Locate.PlaceStep | packages/web/src/algorithms/tree/locateInTree.ts:218-224 | one sample's turn keeps the arena shaped and adds exactly one node when the sample reports no errors, none otherwise |
| Locate.PlaceAll | packages/web/src/algorithms/tree/locateInTree.ts:218-225 | the run over the samples keeps the arena shaped and never removes a node |
| Locate.ClosestNodeIsFirstMinimum | packages/web/src/algorithms/tree/locateInTree.ts:145-158 | the node chosen for a sample is at the smallest distance among all nodes, and every node before it in preorder is strictly farther |
| Locate.PlaceStepShape | packages/web/src/algorithms/tree/locateInTree.ts:217-224 | one sample's turn keeps every existing node's attributes and branch and only appends to children lists; a placed sample's leaf is the new last node |
| Locate.PlacedLeafIsSearched | packages/web/src/algorithms/tree/locateInTree.ts:217-224 | a placed sample's leaf is reachable from the root and has a map, so every later sample's search considers it; that map holds the sample's own bases |
| Locate.PlaceAllKept | packages/web/src/algorithms/tree/locateInTree.ts:217-224 | the whole run keeps every node the tree had before it |
| Locate.PlaceAllLeaves | packages/web/src/algorithms/tree/locateInTree.ts:217-224 | the run appends exactly one leaf per placed sample, in input order, after the original nodes |
| Locate.RootWalk | packages/web/src/algorithms/tree/locateInTree.ts:214-215 | the accumulation from the root succeeds exactly when every node accumulates; it then leaves every node's accumulated map, and otherwise fails with the error of some node of the tree |
| Locate.PlaceOne | packages/web/src/algorithms/tree/locateInTree.ts:218-223 | a sample with errors changes nothing; otherwise its leaf is attached at the node the search finds on the tree as it stands |
| Locate.PlaceSamples | packages/web/src/algorithms/tree/locateInTree.ts:217-224 | the loop places the samples in input order, each on the tree left by the previous ones |
| Locate.LocateInTree | packages/web/src/algorithms/tree/locateInTree.ts:194-241 | a version other than "v2" or a missing tree is an error; otherwise the run succeeds exactly when every node accumulates, and then returns the placed tree (still an arena) with the decorated metadata; a failure reports exactly the error at which the preorder traversal from the root stops, which is the error of some node |

## Left out

- Messages: exceptions become values of `PlaceError`. The texts of the thrown messages are not modelled.
- Token format: `parseMutation` and `formatMutation` (`src/helpers`) are not part of this model. `MutationCodec` stands in for them with the form character, decimal position, character. It accepts any character as a base, not only nucleotide symbols. Its round trip is proved, not assumed. It takes a token's decimal as the map position itself, so tree tokens and the samples' `pos` are assumed to use one numbering; any 0-based or 1-based offset the real helpers apply is not modelled, and `Covered` stands in for the positions being valid indices of the reference sequence.
- Copies and aliasing: the source deep-copies its inputs (`cloneDeep`) and mutates the copy. The model returns a new document value, so aliasing between the inputs and the result is not modelled.
- Document fields: only the version, the tree and the metadata's `colorings` and `display_defaults` are modelled. The run's failure on a document whose `meta` or `colorings` is absent is not modelled, because the model always has those fields.
- Sample fields: only the name, clade, QC status, substitutions and errors are modelled. An absent `errors` list is the empty one. A substitution's amino-acid details are not read by placement.
- Tree input: the tree is given as an arena numbered parent-before-child, with root 0 (`IsArena`). A node without `children` is one with an empty list.
- Divergence: it is an exact `real`, so floating-point rounding is not modelled.
- Falsy values: every recorded base is a character, so the source's falsy checks on `previousNuc` and `der` only test for absence.
- Locate.LocateInTree: requires every placed sample's positions to index the reference sequence (`Covered`). The source would instead read `undefined` as the ancestral base of such a position.
- PlacementTree.WorkingTree.AttachToTree: requires the base node to have a map. In the run this always holds, because every node is accumulated before any sample is placed.
- Distance.DistCountsDifferingPositions: counts a position a branch has reverted to the reference base as a difference, because the node's map keeps reversions (`map[0 := 'C']` followed by `C0A` records `0 := 'A'`); it does not compare reconstructed genomes. It also holds only for samples that name each position at most once. The source does not check this, and with a repeated position the formula can count one position twice.
- Distance.DistNonNegative: holds only under the same condition.
- Differences.LeafMatchesSample: holds only under the same condition.
- Locate.PlacedLeafIsSearched: states only the sample's own bases under the same condition.
