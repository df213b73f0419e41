/** The placement run: checks the tree document, accumulates the maps once,
    places every sample without errors as a new leaf at its closest node,
    clears the maps and decorates the document's metadata. */
module Locate {
  import opened Wrappers
  import opened Types
  import opened MutationCodec
  import opened Accumulate
  import opened Distance
  import opened Differences
  import opened ArgMin
  import opened PlacementTree

  /** A colouring offered by the viewer. */
  datatype Coloring = Coloring(key: string, title: string, kind: string)

  /** The viewer's initial display settings. */
  datatype DisplayDefaults = DisplayDefaults(
    branchLabel: string,
    colorBy: string,
    distanceMeasure: string,
    geoResolution: string,
    mapTriplicate: bool,
    transmissionLines: bool)

  /** The document's metadata fields that placement writes. */
  datatype Meta = Meta(colorings: seq<Coloring>, displayDefaults: Option<DisplayDefaults>)

  /** A tree document: its format version, its tree as an arena (root at
      id 0) and its metadata. */
  datatype TreeDoc = TreeDoc(version: Option<string>, tree: Option<seq<TreeNode>>, meta: Meta)

  /** The version string the run compares: an absent one reads as
      "undefined". */
  function VersionOf(doc: TreeDoc): (v: string)
    ensures doc.version.Some? ==> v == doc.version.value
    ensures doc.version.None? ==> v == "undefined"
  {
    match doc.version
    case Some(v) => v
    case None => "undefined"
  }

  /** The metadata after a run: two categorical colourings appended, for the
      QC status and for the new-node flag, and fixed display defaults that
      colour by the new-node flag. */
  function DecorateMeta(meta: Meta): (r: Meta)
    ensures |r.colorings| == |meta.colorings| + 2
    ensures r.colorings[..|meta.colorings|] == meta.colorings
    ensures r.colorings[|meta.colorings|..]
            == [Coloring("QCStatus", "QC Status", "categorical"), Coloring("new_node", "New Node", "categorical")]
    ensures r.displayDefaults == Some(DisplayDefaults("clade", "new_node", "div", "country", true, false))
  {
    Meta(meta.colorings + [Coloring("QCStatus", "QC Status", "categorical"),
                           Coloring("new_node", "New Node", "categorical")],
         Some(DisplayDefaults("clade", "new_node", "div", "country", true, false)))
  }

  /** A sample is placed only when it reports no errors. */
  predicate Placeable(s: Sample): (b: bool)
    ensures b <==> s.errors == []
  {
    |s.errors| == 0
  }

  /** The samples that get a leaf, in input order. */
  function PlacedSamples(samples: seq<Sample>): (ps: seq<Sample>)
    ensures |ps| <= |samples|
    ensures forall q :: 0 <= q < |ps| ==> Placeable(ps[q])
  {
    if samples == [] then []
    else (if Placeable(samples[0]) then [samples[0]] else []) + PlacedSamples(samples[1..])
  }

  /** The number of samples skipped for reporting errors. */
  function Skipped(samples: seq<Sample>): nat {
    if samples == [] then 0
    else (if Placeable(samples[0]) then 0 else 1) + Skipped(samples[1..])
  }

  /** Of N samples of which k report errors, N - k are placed: each sample
      without errors, and only those. */
  lemma {:induction false} PlacedSamplesFilter(samples: seq<Sample>)
    ensures |PlacedSamples(samples)| == |samples| - Skipped(samples)
    ensures forall q :: 0 <= q < |samples| && Placeable(samples[q]) ==> samples[q] in PlacedSamples(samples)
    ensures forall s :: s in PlacedSamples(samples) ==> s in samples && Placeable(s)
  {
    if samples != [] {
      var rest := samples[1..];
      PlacedSamplesFilter(rest);
      PlacedSamplesCons(samples);
      forall q | 0 <= q < |samples| && Placeable(samples[q]) ensures samples[q] in PlacedSamples(samples) {
        if q > 0 {
          assert samples[q] == rest[q - 1];
        }
      }
      forall s | s in PlacedSamples(samples) ensures s in samples && Placeable(s) {
        if s in PlacedSamples(rest) {
          assert s in rest;
        }
      }
    }
  }

  /** Every sample that is placed mutates only positions of the reference
      sequence. */
  predicate Covered(samples: seq<Sample>, rootSeq: string) {
    forall q :: 0 <= q < |samples| && Placeable(samples[q]) ==> RootCovers(map[], samples[q].mutations, rootSeq)
  }

  /** The node `closest_match` returns from the root: the first node in
      preorder whose distance to the sample is smallest. */
  function ClosestNode(nodes: seq<TreeNode>, state: map<nat, MutMap>, muts: seq<SampleMut>): (b: nat)
    requires Shaped(nodes) && |nodes| > 0
    ensures b < |nodes|
  {
    var ids := Preorder(nodes, 0);
    ids[FirstMin(Distances(state, ids, muts))]
  }

  /** One sample's turn in the run: skipped when it reports errors, else a
      leaf carrying its residual substitutions is attached to its closest
      node and the leaf's map recorded. */
  function PlaceStep(nodes: seq<TreeNode>, state: map<nat, MutMap>, s: Sample, rootSeq: string)
    : (w: (seq<TreeNode>, map<nat, MutMap>))
    requires Shaped(nodes) && |nodes| > 0
    requires Placeable(s) ==> RootCovers(map[], s.mutations, rootSeq)
    ensures Shaped(w.0) && |w.0| == |nodes| + (if Placeable(s) then 1 else 0)
  {
    if !Placeable(s) then (nodes, state)
    else
      var b := ClosestNode(nodes, state, s.mutations);
      var m := NodeMap(state, b);
      var diffs := Diffs(m, s.mutations, rootSeq);
      (Attached(nodes, b, PlacedLeaf(s, FormatAll(diffs), LeafDiv(nodes[b], |diffs|))),
       state[|nodes| := Overlay(m, diffs)])
  }

  /** The run's loop over the samples, in input order. */
  function PlaceAll(nodes: seq<TreeNode>, state: map<nat, MutMap>, samples: seq<Sample>, rootSeq: string)
    : (w: (seq<TreeNode>, map<nat, MutMap>))
    requires Shaped(nodes) && |nodes| > 0 && Covered(samples, rootSeq)
    ensures Shaped(w.0) && |w.0| >= |nodes|
    decreases |samples|
  {
    if samples == [] then (nodes, state)
    else
      var w1 := PlaceStep(nodes, state, samples[0], rootSeq);
      assert Covered(samples[1..], rootSeq) by {
        forall q | 0 <= q < |samples[1..]| ensures samples[1..][q] == samples[q + 1] { }
      }
      PlaceAll(w1.0, w1.1, samples[1..], rootSeq)
  }

  /** The new leaf carries the sample's name, clade and QC status and is
      flagged as new. */
  predicate LeafFor(n: TreeNode, s: Sample) {
    && n.attrs.name == s.seqName + "_clades"
    && n.attrs.newNode == Some("Yes")
    && n.attrs.clade == Some(s.clade)
    && n.attrs.qcStatus == Some(s.qcStatus)
  }

  /** Existing node `j` keeps its attributes and branch, and its children
      list only grows at the end. */
  predicate Kept(before: seq<TreeNode>, after: seq<TreeNode>) {
    && |before| <= |after|
    && forall j :: 0 <= j < |before| ==>
         && after[j].attrs == before[j].attrs
         && after[j].branchMuts == before[j].branchMuts
         && before[j].children <= after[j].children
  }

  /** The chosen node is closest to the sample among all nodes, and every
      node before it in preorder is strictly farther: ties go to the first
      node in preorder. */
  lemma ClosestNodeIsFirstMinimum(nodes: seq<TreeNode>, parent: seq<nat>, state: map<nat, MutMap>,
                                  muts: seq<SampleMut>)
    requires ParentsOk(nodes, parent) && |nodes| > 0
    ensures ClosestNode(nodes, state, muts) in Preorder(nodes, 0)
    ensures forall j :: 0 <= j < |nodes| ==>
              Dist(NodeMap(state, ClosestNode(nodes, state, muts)), muts) <= Dist(NodeMap(state, j), muts)
    ensures exists w :: 0 <= w < |Preorder(nodes, 0)| && Preorder(nodes, 0)[w] == ClosestNode(nodes, state, muts)
              && forall q :: 0 <= q < w ==>
                   Dist(NodeMap(state, Preorder(nodes, 0)[q]), muts) > Dist(NodeMap(state, ClosestNode(nodes, state, muts)), muts)
  {
    var ids := Preorder(nodes, 0);
    var d := Distances(state, ids, muts);
    var w := FirstMin(d);
    var b := ClosestNode(nodes, state, muts);
    assert b == ids[w];
    WinnerIsMinimal(ids, state, muts, d[w], b);
    RootReachesAll(nodes, parent);
    forall j | 0 <= j < |nodes| ensures Dist(NodeMap(state, b), muts) <= Dist(NodeMap(state, j), muts) {
      assert j in ids;
    }
    assert forall q :: 0 <= q < w ==> d[q] > d[w];
    assert 0 <= w < |ids| && ids[w] == b
           && forall q :: 0 <= q < w ==> Dist(NodeMap(state, ids[q]), muts) > Dist(NodeMap(state, b), muts);
  }

  /** A placed sample's turn, spelled out at the node the search found. */
  lemma PlaceStepAt(nodes: seq<TreeNode>, state: map<nat, MutMap>, s: Sample, rootSeq: string,
                    best: int, b: nat)
    requires Shaped(nodes) && |nodes| > 0 && Placeable(s) && RootCovers(map[], s.mutations, rootSeq)
    requires Winner(Preorder(nodes, 0), state, s.mutations, best, b) && b in state
    ensures RootCovers(state[b], s.mutations, rootSeq)
    ensures PlaceStep(nodes, state, s, rootSeq).0
            == Attached(nodes, b, PlacedLeaf(s, FormatAll(Diffs(state[b], s.mutations, rootSeq)),
                                             LeafDiv(nodes[b], |Diffs(state[b], s.mutations, rootSeq)|)))
    ensures PlaceStep(nodes, state, s, rootSeq).1
            == state[|nodes| := Overlay(state[b], Diffs(state[b], s.mutations, rootSeq))]
  {
    assert b == ClosestNode(nodes, state, s.mutations);
  }

  /** One turn keeps every existing node, and a placed sample's leaf is the
      last node. */
  lemma PlaceStepShape(nodes: seq<TreeNode>, state: map<nat, MutMap>, s: Sample, rootSeq: string)
    requires Shaped(nodes) && |nodes| > 0
    requires Placeable(s) ==> RootCovers(map[], s.mutations, rootSeq)
    ensures Kept(nodes, PlaceStep(nodes, state, s, rootSeq).0)
    ensures Placeable(s) ==> LeafFor(PlaceStep(nodes, state, s, rootSeq).0[|nodes|], s)
  {
    if Placeable(s) {
      var b := ClosestNode(nodes, state, s.mutations);
      var w := PlaceStep(nodes, state, s, rootSeq).0;
      forall j | 0 <= j < |nodes|
        ensures w[j].attrs == nodes[j].attrs && w[j].branchMuts == nodes[j].branchMuts
                && nodes[j].children <= w[j].children
      {
        if j == b {
          assert w[b].children == nodes[b].children + [|nodes|];
        }
      }
    }
  }

  /** A placed sample's leaf is reachable from the root, so every later
      sample's search considers it, and its map carries each of the sample's
      substitutions. */
  lemma PlacedLeafIsSearched(nodes: seq<TreeNode>, parent: seq<nat>, state: map<nat, MutMap>, s: Sample,
                             rootSeq: string)
    requires ParentsOk(nodes, parent) && |nodes| > 0 && Placeable(s) && RootCovers(map[], s.mutations, rootSeq)
    ensures |nodes| in Preorder(PlaceStep(nodes, state, s, rootSeq).0, 0)
    ensures |nodes| in PlaceStep(nodes, state, s, rootSeq).1
    ensures DistinctPositions(s.mutations) ==>
              forall k :: 0 <= k < |s.mutations| ==>
                s.mutations[k].pos in PlaceStep(nodes, state, s, rootSeq).1[|nodes|]
                && PlaceStep(nodes, state, s, rootSeq).1[|nodes|][s.mutations[k].pos] == s.mutations[k].queryNuc
  {
    var b := ClosestNode(nodes, state, s.mutations);
    var m := NodeMap(state, b);
    var diffs := Diffs(m, s.mutations, rootSeq);
    var leaf := PlacedLeaf(s, FormatAll(diffs), LeafDiv(nodes[b], |diffs|));
    AttachKeepsShape(nodes, parent, b, leaf);
    RootReachesAll(Attached(nodes, b, leaf), parent + [b]);
    if DistinctPositions(s.mutations) {
      LeafMatchesSample(m, s.mutations, rootSeq);
    }
  }

  /** `Kept` composes. */
  lemma KeptTrans(a: seq<TreeNode>, b: seq<TreeNode>, c: seq<TreeNode>)
    requires Kept(a, b) && Kept(b, c)
    ensures Kept(a, c)
  {
    forall j | 0 <= j < |a| ensures a[j].children <= c[j].children {
      assert a[j].children <= b[j].children && b[j].children <= c[j].children;
    }
  }

  /** The whole run keeps every node the tree had before it. */
  lemma {:induction false} PlaceAllKept(nodes: seq<TreeNode>, state: map<nat, MutMap>, samples: seq<Sample>,
                                        rootSeq: string)
    requires Shaped(nodes) && |nodes| > 0 && Covered(samples, rootSeq)
    ensures Kept(nodes, PlaceAll(nodes, state, samples, rootSeq).0)
    decreases |samples|
  {
    if samples != [] {
      var w1 := PlaceStep(nodes, state, samples[0], rootSeq);
      assert Covered(samples[1..], rootSeq) by {
        forall q | 0 <= q < |samples[1..]| ensures samples[1..][q] == samples[q + 1] { }
      }
      PlaceStepShape(nodes, state, samples[0], rootSeq);
      PlaceAllKept(w1.0, w1.1, samples[1..], rootSeq);
      KeptTrans(nodes, w1.0, PlaceAll(w1.0, w1.1, samples[1..], rootSeq).0);
    }
  }

  /** The leaves `ps` sit, in order, at the end of `out` from index `from`. */
  predicate LeavesAt(out: seq<TreeNode>, from: nat, ps: seq<Sample>) {
    from + |ps| == |out| && forall q :: 0 <= q < |ps| ==> LeafFor(out[from + q], ps[q])
  }

  /** A leaf for `s` just before the leaves of `rest` gives the leaves of
      `[s] + rest`. */
  lemma LeavesCons(w1: seq<TreeNode>, out: seq<TreeNode>, from: nat, s: Sample, rest: seq<Sample>)
    requires |w1| == from + 1 && Kept(w1, out) && LeafFor(w1[from], s)
    requires LeavesAt(out, from + 1, rest)
    ensures LeavesAt(out, from, [s] + rest)
  {
    forall q | 0 <= q < |[s] + rest| ensures LeafFor(out[from + q], ([s] + rest)[q]) {
      if q == 0 {
        assert out[from].attrs == w1[from].attrs;
      } else {
        assert LeafFor(out[from + 1 + (q - 1)], rest[q - 1]);
      }
    }
  }

  /** The samples that are placed, split at the first one. */
  lemma PlacedSamplesCons(samples: seq<Sample>)
    requires samples != []
    ensures Placeable(samples[0]) ==> PlacedSamples(samples) == [samples[0]] + PlacedSamples(samples[1..])
    ensures !Placeable(samples[0]) ==> PlacedSamples(samples) == PlacedSamples(samples[1..])
  {
  }

  /** The whole run appends exactly the leaves of the placed samples, in
      input order, after the nodes the tree had before it. */
  lemma {:induction false} PlaceAllLeaves(nodes: seq<TreeNode>, state: map<nat, MutMap>, samples: seq<Sample>,
                                          rootSeq: string)
    requires Shaped(nodes) && |nodes| > 0 && Covered(samples, rootSeq)
    ensures LeavesAt(PlaceAll(nodes, state, samples, rootSeq).0, |nodes|, PlacedSamples(samples))
    decreases |samples|
  {
    if samples != [] {
      var s := samples[0];
      var w1 := PlaceStep(nodes, state, s, rootSeq);
      assert Covered(samples[1..], rootSeq) by {
        forall q | 0 <= q < |samples[1..]| ensures samples[1..][q] == samples[q + 1] { }
      }
      var out := PlaceAll(w1.0, w1.1, samples[1..], rootSeq).0;
      PlaceAllLeaves(w1.0, w1.1, samples[1..], rootSeq);
      PlacedSamplesCons(samples);
      if Placeable(s) {
        PlaceStepShape(nodes, state, s, rootSeq);
        PlaceAllKept(w1.0, w1.1, samples[1..], rootSeq);
        LeavesCons(w1.0, out, |nodes|, s, PlacedSamples(samples[1..]));
      }
    }
  }

  /** Every node of the tree accumulates its map without an inconsistent
      token. */
  ghost predicate AllAccumulate(tree: seq<TreeNode>)
    requires IsArena(tree)
  {
    forall j :: 0 <= j < |tree| ==> AccumAt(tree, Parents(tree), j).Ok?
  }

  /** Each node's accumulated map, keyed by node id. */
  ghost function AccumState(tree: seq<TreeNode>): (st: map<nat, MutMap>)
    requires IsArena(tree) && AllAccumulate(tree)
    ensures forall j: nat :: j in st <==> j < |tree|
  {
    map j: nat | j < |tree| :: AccumAt(tree, Parents(tree), j).value
  }

  /** The accumulation from the root succeeded exactly when every node
      accumulates, and then left exactly the accumulated maps. */
  lemma RootWalk(tree: seq<TreeNode>, r: Outcome<PlaceError>, st: map<nat, MutMap>)
    requires IsArena(tree)
    requires (r, st) == MutationsWalk(tree, 0, map[], map[])
    ensures r.Pass? <==> AllAccumulate(tree)
    ensures r.Fail? ==> FailsIn(tree, Parents(tree), Preorder(tree, 0), r.error)
    ensures r.Pass? ==> st == AccumState(tree)
  {
    var parent := Parents(tree);
    WalkSound(tree, parent, 0, map[], map[]);
    RootReachesAll(tree, parent);
    if r.Pass? {
      assert AllAccumulate(tree);
      var acc := AccumState(tree);
      assert forall j :: j in st <==> j in acc;
      assert forall j :: j in st ==> st[j] == acc[j];
    } else {
      var j :| j in Preorder(tree, 0) && j < |tree| && AccumAt(tree, parent, j) == Err(r.error);
      assert !AccumAt(tree, parent, j).Ok?;
    }
  }

  /** `locateInTree`: the version gate ("v2", an absent version reading as
      "undefined"), the root check, one accumulation pass whose first
      failure ends the run, then every sample without errors placed in
      input order on the tree as it stands, the maps cleared and the
      metadata decorated. */
  method LocateInTree(samples: seq<Sample>, doc: TreeDoc, rootSeq: string) returns (r: Result<TreeDoc, PlaceError>)
    requires doc.tree.Some? ==> IsArena(doc.tree.value)
    requires Covered(samples, rootSeq)
    ensures VersionOf(doc) != "v2" ==> r == Err(VersionMismatch(VersionOf(doc)))
    ensures VersionOf(doc) == "v2" && doc.tree.None? ==> r == Err(NoTree)
    ensures VersionOf(doc) == "v2" && doc.tree.Some? ==>
              var tree := doc.tree.value;
              && (r.Ok? <==> AllAccumulate(tree))
              && (r.Err? ==> FailsIn(tree, Parents(tree), Preorder(tree, 0), r.error)
                             && MutationsWalk(tree, 0, map[], map[]).0 == Fail(r.error))
              && (r.Ok? ==> r.value == doc.(tree := Some(PlaceAll(tree, AccumState(tree), samples, rootSeq).0),
                                            meta := DecorateMeta(doc.meta))
                            && IsArena(r.value.tree.value))
  {
    var version := VersionOf(doc);
    if version != "v2" {
      return Err(VersionMismatch(version));
    }
    if doc.tree.None? {
      return Err(NoTree);
    }
    var tree := doc.tree.value;
    var wt := new WorkingTree(tree);
    var accumulated := wt.MutationsOnTree(0, map[]);
    RootWalk(tree, accumulated, wt.state);
    if accumulated.Fail? {
      return Err(accumulated.error);
    }
    RootReachesAll(tree, wt.parent);
    assert wt.Accumulated();
    PlaceSamples(wt, samples, rootSeq);
    wt.RemoveMutations(0);
    ParentsMakeArena(wt.nodes, wt.parent);
    return Ok(doc.(tree := Some(wt.nodes), meta := DecorateMeta(doc.meta)));
  }

  /** The run's loop: every sample in input order, on the tree as it stands. */
  method PlaceSamples(wt: WorkingTree, samples: seq<Sample>, rootSeq: string)
    requires wt.Valid() && wt.Accumulated() && Covered(samples, rootSeq)
    modifies wt
    ensures wt.Valid() && wt.Accumulated()
    ensures (wt.nodes, wt.state) == PlaceAll(old(wt.nodes), old(wt.state), samples, rootSeq)
  {
    var k := 0;
    while k < |samples|
      invariant 0 <= k <= |samples|
      invariant wt.Valid() && wt.Accumulated()
      invariant Covered(samples[k..], rootSeq)
      invariant PlaceAll(wt.nodes, wt.state, samples[k..], rootSeq)
                == PlaceAll(old(wt.nodes), old(wt.state), samples, rootSeq)
    {
      assert samples[k..][0] == samples[k] && samples[k..][1..] == samples[k + 1..];
      PlaceOne(wt, samples[k], rootSeq);
      k := k + 1;
    }
  }

  /** One sample's turn: skipped when it reports errors, else its closest
      node is searched from the root and its leaf attached there. */
  method PlaceOne(wt: WorkingTree, s: Sample, rootSeq: string)
    requires wt.Valid() && wt.Accumulated()
    requires Placeable(s) ==> RootCovers(map[], s.mutations, rootSeq)
    modifies wt
    ensures wt.Valid() && wt.Accumulated()
    ensures (wt.nodes, wt.state) == PlaceStep(old(wt.nodes), old(wt.state), s, rootSeq)
  {
    if Placeable(s) {
      var best, bestNode := wt.ClosestMatch(0, s);
      PlaceStepAt(wt.nodes, wt.state, s, rootSeq, best, bestNode);
      wt.AttachToTree(bestNode, s, rootSeq);
    }
  }
}
