/** The working copy of the reference tree, held as an arena: node `j` is
    `nodes[j]`, children are listed by id, and the root is node 0. The
    transient per-node maps (`node.mutations` in the source) live in the
    side-table `state`, keyed by node id. */
module PlacementTree {
  import opened Wrappers
  import opened Types
  import opened MutationCodec
  import opened Accumulate
  import opened Distance
  import opened Differences
  import opened ArgMin

  /** The node attributes placement writes; `div` is the divergence. */
  datatype NodeAttrs = NodeAttrs(
    name: string,
    clade: Option<string>,
    newNode: Option<string>,
    qcStatus: Option<string>,
    div: Option<real>)

  /** A tree node: its attributes, the tokens on its incoming branch and the
      ids of its children, in order. */
  datatype TreeNode = TreeNode(attrs: NodeAttrs, branchMuts: seq<string>, children: seq<nat>)

  /** Every child id is larger than its parent's id and names a node. */
  ghost predicate Shaped(nodes: seq<TreeNode>) {
    forall i, k :: 0 <= i < |nodes| && 0 <= k < |nodes[i].children|
      ==> i < nodes[i].children[k] < |nodes|
  }

  /** A tree document's nodes as an arena: shaped, no node listed under two
      parents, and every node but the root listed under an earlier one. */
  ghost predicate IsArena(nodes: seq<TreeNode>) {
    && |nodes| > 0
    && Shaped(nodes)
    && (forall i1, i2, c ::
          (0 <= i1 < |nodes| && 0 <= i2 < |nodes| && c in nodes[i1].children && c in nodes[i2].children)
          ==> i1 == i2)
    && (forall j :: 0 < j < |nodes| ==> Listed(nodes, j))
  }

  /** Node `j` is a child of an earlier node. */
  ghost predicate Listed(nodes: seq<TreeNode>, j: nat) {
    exists i :: 0 <= i < j && i < |nodes| && j in nodes[i].children
  }

  /** The subtree of node `i` in preorder: the node, then its children's
      subtrees in listed order. */
  function Preorder(nodes: seq<TreeNode>, i: nat): (r: seq<nat>)
    requires Shaped(nodes) && i < |nodes|
    ensures |r| > 0 && r[0] == i
    ensures forall q :: 0 <= q < |r| ==> r[q] < |nodes|
    decreases |nodes| - i, 1
  {
    [i] + Forest(nodes, i, |nodes[i].children|)
  }

  /** The subtrees of the first `k` children of node `i`, concatenated. */
  function Forest(nodes: seq<TreeNode>, i: nat, k: nat): (r: seq<nat>)
    requires Shaped(nodes) && i < |nodes| && k <= |nodes[i].children|
    ensures forall q :: 0 <= q < |r| ==> r[q] < |nodes|
    decreases |nodes| - i, 0, k
  {
    if k == 0 then []
    else Forest(nodes, i, k - 1) + Preorder(nodes, nodes[i].children[k - 1])
  }

  lemma {:induction false} ForestPrefix(nodes: seq<TreeNode>, i: nat, k: nat, n: nat)
    requires Shaped(nodes) && i < |nodes| && k <= n <= |nodes[i].children|
    ensures forall j :: j in Forest(nodes, i, k) ==> j in Forest(nodes, i, n)
    decreases n
  {
    if k < n {
      ForestPrefix(nodes, i, k, n - 1);
    }
  }

  /** A node of a forest lies in the subtree of one of its children. */
  lemma {:induction false} ForestMember(nodes: seq<TreeNode>, i: nat, k: nat, p: nat) returns (q: nat)
    requires Shaped(nodes) && i < |nodes| && k <= |nodes[i].children|
    requires p in Forest(nodes, i, k)
    ensures q < k && p in Preorder(nodes, nodes[i].children[q])
    decreases k
  {
    if p in Forest(nodes, i, k - 1) {
      q := ForestMember(nodes, i, k - 1, p);
    } else {
      q := k - 1;
    }
  }

  /** A child's subtree lies inside its parent's. */
  lemma ChildSubtree(nodes: seq<TreeNode>, i: nat, k: nat)
    requires Shaped(nodes) && i < |nodes| && k < |nodes[i].children|
    ensures forall j :: j in Preorder(nodes, nodes[i].children[k]) ==> j in Preorder(nodes, i)
  {
    ForestPrefix(nodes, i, k + 1, |nodes[i].children|);
  }

  /** Subtrees are closed: a node under a node of `i`'s subtree is in it. */
  lemma {:induction false} PreorderTransitive(nodes: seq<TreeNode>, i: nat, p: nat, x: nat)
    requires Shaped(nodes) && i < |nodes| && p < |nodes|
    requires p in Preorder(nodes, i) && x in Preorder(nodes, p)
    ensures x in Preorder(nodes, i)
    decreases |nodes| - i
  {
    if p != i {
      var q := ForestMember(nodes, i, |nodes[i].children|, p);
      var c := nodes[i].children[q];
      PreorderTransitive(nodes, c, p, x);
      ChildSubtree(nodes, i, q);
    }
  }

  /** A parent assignment that matches the children lists. */
  ghost predicate ParentsOk(nodes: seq<TreeNode>, parent: seq<nat>) {
    && Shaped(nodes)
    && |parent| == |nodes|
    && (forall i, k :: 0 <= i < |nodes| && 0 <= k < |nodes[i].children|
          ==> parent[nodes[i].children[k]] == i)
    && (forall j :: 0 < j < |nodes| ==> parent[j] < j && j in nodes[parent[j]].children)
  }

  /** Every node of a tree is in the root's subtree. */
  lemma {:induction false} ReachableFromRoot(nodes: seq<TreeNode>, parent: seq<nat>, j: nat)
    requires Shaped(nodes) && ParentsOk(nodes, parent) && j < |nodes|
    ensures j in Preorder(nodes, 0)
    decreases j
  {
    if j > 0 {
      var p := parent[j];
      ReachableFromRoot(nodes, parent, p);
      var k :| 0 <= k < |nodes[p].children| && nodes[p].children[k] == j;
      ChildSubtree(nodes, p, k);
      PreorderTransitive(nodes, 0, p, j);
    }
  }

  /** From the root, a subtree is the whole tree. */
  lemma RootReachesAll(nodes: seq<TreeNode>, parent: seq<nat>)
    requires Shaped(nodes) && ParentsOk(nodes, parent)
    ensures forall j :: 0 <= j < |nodes| ==> j in Preorder(nodes, 0)
  {
    forall j | 0 <= j < |nodes| ensures j in Preorder(nodes, 0) {
      ReachableFromRoot(nodes, parent, j);
    }
  }

  /** The nodes seen after `k + 1` children: those after `k`, then the
      subtree of child `k`. */
  lemma ForestStep(nodes: seq<TreeNode>, i: nat, k: nat)
    requires Shaped(nodes) && i < |nodes| && k < |nodes[i].children|
    ensures [i] + Forest(nodes, i, k + 1) == [i] + Forest(nodes, i, k) + Preorder(nodes, nodes[i].children[k])
    ensures forall j :: j in Preorder(nodes, nodes[i].children[k]) ==> j in Preorder(nodes, i)
  {
    ChildSubtree(nodes, i, k);
  }

  ghost function ParentOf(nodes: seq<TreeNode>, j: nat): nat
    requires IsArena(nodes) && 0 < j < |nodes|
  {
    assert Listed(nodes, j);
    var i :| 0 <= i < j && i < |nodes| && j in nodes[i].children; i
  }

  /** The parent of each node of an arena (the root's entry is 0). */
  ghost function Parents(nodes: seq<TreeNode>): (parent: seq<nat>)
    requires IsArena(nodes)
    ensures ParentsOk(nodes, parent)
  {
    seq(|nodes|, j requires 0 <= j < |nodes| => if j == 0 then 0 else ParentOf(nodes, j))
  }

  /** An arena with a matching parent assignment is a tree document's arena. */
  lemma ParentsMakeArena(nodes: seq<TreeNode>, parent: seq<nat>)
    requires |nodes| > 0 && Shaped(nodes) && ParentsOk(nodes, parent)
    ensures IsArena(nodes)
  {
    forall i1, i2, c | 0 <= i1 < |nodes| && 0 <= i2 < |nodes|
      && c in nodes[i1].children && c in nodes[i2].children
      ensures i1 == i2
    {
      var k1 :| 0 <= k1 < |nodes[i1].children| && nodes[i1].children[k1] == c;
      var k2 :| 0 <= k2 < |nodes[i2].children| && nodes[i2].children[k2] == c;
    }
    forall j | 0 < j < |nodes| ensures Listed(nodes, j) {
      assert j in nodes[parent[j]].children;
    }
  }

  /** The accumulated map of node `j`: the root starts from the empty map;
      every other node applies its branch tokens over its parent's map. */
  ghost function AccumAt(nodes: seq<TreeNode>, parent: seq<nat>, j: nat): (r: Result<MutMap, PlaceError>)
    requires ParentsOk(nodes, parent) && j < |nodes|
    ensures r.Err? ==> r.error.Unparsable? || r.error.Inconsistent?
    decreases j
  {
    if j == 0 then ApplyTokens(map[], nodes[0].branchMuts)
    else
      match AccumAt(nodes, parent, parent[j])
      case Err(e) => Err(e)
      case Ok(pm) => ApplyTokens(pm, nodes[j].branchMuts)
  }

  /** Appending nodes and extending children lists changes no existing
      node's accumulated map. */
  lemma {:induction false} AccumAtFrame(nodes: seq<TreeNode>, parent: seq<nat>,
                                        nodes': seq<TreeNode>, parent': seq<nat>, j: nat)
    requires ParentsOk(nodes, parent) && ParentsOk(nodes', parent')
    requires j < |nodes| <= |nodes'|
    requires forall q :: 0 <= q < |nodes| ==> nodes'[q].branchMuts == nodes[q].branchMuts && parent'[q] == parent[q]
    ensures AccumAt(nodes', parent', j) == AccumAt(nodes, parent, j)
    decreases j
  {
    if j > 0 {
      AccumAtFrame(nodes, parent, nodes', parent', parent[j]);
    }
  }

  /** The map a node reads: none recorded behaves as the empty map. */
  function NodeMap(state: map<nat, MutMap>, j: nat): (m: MutMap)
    ensures j in state ==> m == state[j]
    ensures j !in state ==> |m| == 0
  {
    if j in state then state[j] else map[]
  }

  /** The distances of the listed nodes to a sample. */
  function Distances(state: map<nat, MutMap>, ids: seq<nat>, muts: seq<SampleMut>): (d: seq<int>)
    ensures |d| == |ids|
    ensures forall k :: 0 <= k < |ids| ==> d[k] == Dist(NodeMap(state, ids[k]), muts)
  {
    seq(|ids|, k requires 0 <= k < |ids| => Dist(NodeMap(state, ids[k]), muts))
  }

  lemma DistancesAppend(state: map<nat, MutMap>, a: seq<nat>, b: seq<nat>, muts: seq<SampleMut>)
    ensures Distances(state, a + b, muts) == Distances(state, a, muts) + Distances(state, b, muts)
  {
    var d, da, db := Distances(state, a + b, muts), Distances(state, a, muts), Distances(state, b, muts);
    forall k | 0 <= k < |a + b| ensures d[k] == (da + db)[k] {
      if k < |a| { assert (a + b)[k] == a[k]; } else { assert (a + b)[k] == b[k - |a|]; }
    }
  }

  /** `bestNode` is the first of `ids` at the smallest distance, `best`. */
  ghost predicate Winner(ids: seq<nat>, state: map<nat, MutMap>, muts: seq<SampleMut>, best: int, bestNode: nat) {
    var d := Distances(state, ids, muts);
    |ids| > 0 && bestNode == ids[FirstMin(d)] && best == d[FirstMin(d)]
  }

  lemma WinnerIsMinimal(ids: seq<nat>, state: map<nat, MutMap>, muts: seq<SampleMut>, best: int, bestNode: nat)
    requires Winner(ids, state, muts, best, bestNode)
    ensures bestNode in ids && best == Dist(NodeMap(state, bestNode), muts)
    ensures forall j :: j in ids ==> best <= Dist(NodeMap(state, j), muts)
  {
    var d := Distances(state, ids, muts);
    var w := FirstMin(d);
    forall j | j in ids ensures best <= Dist(NodeMap(state, j), muts) {
      var q :| 0 <= q < |ids| && ids[q] == j;
      assert d[w] <= d[q];
    }
  }

  /** The search starts with the node itself as the only candidate. */
  lemma SearchStart(nodes: seq<TreeNode>, state: map<nat, MutMap>, muts: seq<SampleMut>, i: nat, best: int, bestNode: nat)
    requires Shaped(nodes) && i < |nodes|
    requires best == Dist(NodeMap(state, i), muts) && bestNode == i
    ensures Winner([i] + Forest(nodes, i, 0), state, muts, best, bestNode)
  {
    assert [i] + Forest(nodes, i, 0) == [i];
  }

  /** One child of the search: its subtree's winner replaces the current
      one only when strictly closer. */
  lemma SearchStep(nodes: seq<TreeNode>, state: map<nat, MutMap>, muts: seq<SampleMut>, i: nat, k: nat,
                   best: int, bestNode: nat, childBest: int, childNode: nat)
    requires Shaped(nodes) && i < |nodes| && k < |nodes[i].children|
    requires Winner([i] + Forest(nodes, i, k), state, muts, best, bestNode)
    requires Winner(Preorder(nodes, nodes[i].children[k]), state, muts, childBest, childNode)
    ensures if childBest < best
            then Winner([i] + Forest(nodes, i, k + 1), state, muts, childBest, childNode)
            else Winner([i] + Forest(nodes, i, k + 1), state, muts, best, bestNode)
  {
    ForestStep(nodes, i, k);
    WinnerAppend([i] + Forest(nodes, i, k), Preorder(nodes, nodes[i].children[k]),
                 state, muts, best, bestNode, childBest, childNode);
  }

  lemma WinnerAppend(seen: seq<nat>, sub: seq<nat>, state: map<nat, MutMap>, muts: seq<SampleMut>,
                     best: int, bestNode: nat, childBest: int, childNode: nat)
    requires Winner(seen, state, muts, best, bestNode)
    requires Winner(sub, state, muts, childBest, childNode)
    ensures if childBest < best
            then Winner(seen + sub, state, muts, childBest, childNode)
            else Winner(seen + sub, state, muts, best, bestNode)
  {
    DistancesAppend(state, seen, sub, muts);
    FirstMinPick(seen, sub, Distances(state, seen, muts), Distances(state, sub, muts));
  }

  /** Every listed node carries its accumulated map in `state`. */
  ghost predicate Recorded(nodes: seq<TreeNode>, parent: seq<nat>, state: map<nat, MutMap>, ids: seq<nat>) {
    && ParentsOk(nodes, parent)
    && forall j :: j in ids ==> j < |nodes| && AccumAt(nodes, parent, j).Ok?
                                && j in state && state[j] == AccumAt(nodes, parent, j).value
  }

  /** Some listed node's accumulated map is the error `e`. */
  ghost predicate FailsIn(nodes: seq<TreeNode>, parent: seq<nat>, ids: seq<nat>, e: PlaceError) {
    && ParentsOk(nodes, parent)
    && exists j :: j in ids && j < |nodes| && AccumAt(nodes, parent, j) == Err(e)
  }

  /** Every node of the arena carries its accumulated map in `state`. */
  ghost predicate AllRecorded(nodes: seq<TreeNode>, parent: seq<nat>, state: map<nat, MutMap>) {
    && ParentsOk(nodes, parent)
    && forall j :: 0 <= j < |nodes| ==> AccumAt(nodes, parent, j).Ok?
                                        && j in state && state[j] == AccumAt(nodes, parent, j).value
  }

  /** The whole-arena form is the traversal's form over the root's
      preorder, which lists every node. */
  lemma AllRecordedIsRecorded(nodes: seq<TreeNode>, parent: seq<nat>, state: map<nat, MutMap>)
    requires ParentsOk(nodes, parent) && |nodes| > 0
    ensures AllRecorded(nodes, parent, state) <==> Recorded(nodes, parent, state, Preorder(nodes, 0))
  {
    RootReachesAll(nodes, parent);
  }

  /** Maps are kept only for nodes of the arena. */
  ghost predicate KeysBelow(state: map<nat, MutMap>, n: nat) {
    forall j :: j in state ==> j < n
  }

  /** `state` agrees with `before` on every node not listed. */
  ghost predicate SameOutside(ids: seq<nat>, state: map<nat, MutMap>, before: map<nat, MutMap>) {
    forall j :: j !in ids ==> (j in state <==> j in before) && (j in state ==> state[j] == before[j])
  }

  /** `state` is `before` without the maps of the listed nodes. */
  ghost predicate Removed(ids: seq<nat>, state: map<nat, MutMap>, before: map<nat, MutMap>) {
    && (forall j :: j in state <==> j in before && j !in ids)
    && (forall j :: j in state ==> state[j] == before[j])
  }

  lemma RecordedAppend(nodes: seq<TreeNode>, parent: seq<nat>, st0: map<nat, MutMap>, st1: map<nat, MutMap>,
                       a: seq<nat>, b: seq<nat>)
    requires Recorded(nodes, parent, st0, a) && Recorded(nodes, parent, st1, b) && SameOutside(b, st1, st0)
    ensures Recorded(nodes, parent, st1, a + b)
  {
  }

  lemma SameOutsideTrans(big: seq<nat>, small: seq<nat>, st0: map<nat, MutMap>, st1: map<nat, MutMap>, st2: map<nat, MutMap>)
    requires forall j :: j in small ==> j in big
    requires SameOutside(big, st1, st0) && SameOutside(small, st2, st1)
    ensures SameOutside(big, st2, st0)
  {
  }

  lemma RemovedAppend(a: seq<nat>, b: seq<nat>, st0: map<nat, MutMap>, st1: map<nat, MutMap>, st2: map<nat, MutMap>)
    requires Removed(a, st1, st0) && Removed(b, st2, st1)
    ensures Removed(a + b, st2, st0)
  {
  }

  /** After the subtree of child `k` has been recorded, the first `k + 1`
      children's subtrees are, and nothing outside `i`'s subtree changed. */
  lemma ChildRecorded(nodes: seq<TreeNode>, parent: seq<nat>, st0: map<nat, MutMap>,
                      before: map<nat, MutMap>, after: map<nat, MutMap>, i: nat, k: nat)
    requires ParentsOk(nodes, parent) && i < |nodes| && k < |nodes[i].children|
    requires Recorded(nodes, parent, before, [i] + Forest(nodes, i, k))
    requires SameOutside(Preorder(nodes, i), before, st0)
    requires Recorded(nodes, parent, after, Preorder(nodes, nodes[i].children[k]))
    requires SameOutside(Preorder(nodes, nodes[i].children[k]), after, before)
    ensures Recorded(nodes, parent, after, [i] + Forest(nodes, i, k + 1))
    ensures SameOutside(Preorder(nodes, i), after, st0)
  {
    ForestStep(nodes, i, k);
    RecordedAppend(nodes, parent, before, after, [i] + Forest(nodes, i, k), Preorder(nodes, nodes[i].children[k]));
    SameOutsideTrans(Preorder(nodes, i), Preorder(nodes, nodes[i].children[k]), st0, before, after);
  }

  /** A failure in a child's subtree is a failure in the parent's. */
  lemma ChildFailed(nodes: seq<TreeNode>, parent: seq<nat>, st0: map<nat, MutMap>,
                    before: map<nat, MutMap>, after: map<nat, MutMap>, i: nat, k: nat, e: PlaceError)
    requires ParentsOk(nodes, parent) && i < |nodes| && k < |nodes[i].children|
    requires SameOutside(Preorder(nodes, i), before, st0)
    requires SameOutside(Preorder(nodes, nodes[i].children[k]), after, before)
    requires FailsIn(nodes, parent, Preorder(nodes, nodes[i].children[k]), e)
    ensures FailsIn(nodes, parent, Preorder(nodes, i), e)
    ensures SameOutside(Preorder(nodes, i), after, st0)
  {
    ForestStep(nodes, i, k);
    SameOutsideTrans(Preorder(nodes, i), Preorder(nodes, nodes[i].children[k]), st0, before, after);
  }

  /** The traversal of `mutations_on_tree` from node `i` with the map
      `inherited`, over the side table `st`: the outcome and the new table.
      The node's branch is replayed over `inherited`; on success its map is
      recorded and its children are visited in order with that map. */
  function MutationsWalk(nodes: seq<TreeNode>, i: nat, inherited: MutMap, st: map<nat, MutMap>)
    : (w: (Outcome<PlaceError>, map<nat, MutMap>))
    requires Shaped(nodes) && i < |nodes|
    ensures KeysBelow(st, |nodes|) ==> KeysBelow(w.1, |nodes|)
    decreases |nodes| - i, 1
  {
    match ApplyTokens(inherited, nodes[i].branchMuts)
    case Err(e) => (Fail(e), st)
    case Ok(m) => ChildrenFrom(nodes, i, 0, m, st[i := m])
  }

  /** The loop of `mutations_on_tree` from child `k` of node `i` on, passing
      each child the map `m`; the first failure ends it. */
  function ChildrenFrom(nodes: seq<TreeNode>, i: nat, k: nat, m: MutMap, st: map<nat, MutMap>)
    : (w: (Outcome<PlaceError>, map<nat, MutMap>))
    requires Shaped(nodes) && i < |nodes| && k <= |nodes[i].children|
    ensures KeysBelow(st, |nodes|) ==> KeysBelow(w.1, |nodes|)
    decreases |nodes| - i, 0, |nodes[i].children| - k
  {
    if k == |nodes[i].children| then (Pass, st)
    else
      var (r, st1) := MutationsWalk(nodes, nodes[i].children[k], m, st);
      if r.Fail? then (r, st1) else ChildrenFrom(nodes, i, k + 1, m, st1)
  }

  /** Started with the map its parent accumulated, the walk from `i` either
      records every node of `i`'s subtree with its accumulated map, or fails
      with the error of some node of that subtree; either way it touches no
      node outside the subtree. */
  lemma {:induction false} WalkSound(nodes: seq<TreeNode>, parent: seq<nat>, i: nat, inherited: MutMap,
                                     st: map<nat, MutMap>)
    requires ParentsOk(nodes, parent) && i < |nodes|
    requires i == 0 ==> inherited == map[]
    requires i > 0 ==> AccumAt(nodes, parent, parent[i]) == Ok(inherited)
    ensures var w := MutationsWalk(nodes, i, inherited, st);
            && (w.0.Pass? ==> Recorded(nodes, parent, w.1, Preorder(nodes, i)))
            && (w.0.Fail? ==> FailsIn(nodes, parent, Preorder(nodes, i), w.0.error))
            && SameOutside(Preorder(nodes, i), w.1, st)
    decreases |nodes| - i, 1
  {
    assert AccumAt(nodes, parent, i) == ApplyTokens(inherited, nodes[i].branchMuts);
    assert i in Preorder(nodes, i) by { assert Preorder(nodes, i)[0] == i; }
    match ApplyTokens(inherited, nodes[i].branchMuts)
    case Err(e) =>
    case Ok(m) =>
      var st1 := st[i := m];
      assert [i] + Forest(nodes, i, 0) == [i];
      ChildrenSound(nodes, parent, i, 0, m, st1);
      var w := ChildrenFrom(nodes, i, 0, m, st1);
      assert [i] + Forest(nodes, i, |nodes[i].children|) == Preorder(nodes, i);
      SameOutsideTrans(Preorder(nodes, i), Preorder(nodes, i), st, st1, w.1);
  }

  /** With node `i` and the subtrees of its first `k` children recorded,
      the rest of the loop records the whole subtree of `i` or fails with
      the error of some node of it, touching nothing outside it. */
  lemma {:induction false} ChildrenSound(nodes: seq<TreeNode>, parent: seq<nat>, i: nat, k: nat, m: MutMap,
                                         st: map<nat, MutMap>)
    requires ParentsOk(nodes, parent) && i < |nodes| && k <= |nodes[i].children|
    requires AccumAt(nodes, parent, i) == Ok(m)
    requires Recorded(nodes, parent, st, [i] + Forest(nodes, i, k))
    ensures var w := ChildrenFrom(nodes, i, k, m, st);
            && (w.0.Pass? ==> Recorded(nodes, parent, w.1, [i] + Forest(nodes, i, |nodes[i].children|)))
            && (w.0.Fail? ==> FailsIn(nodes, parent, Preorder(nodes, i), w.0.error))
            && SameOutside(Preorder(nodes, i), w.1, st)
    decreases |nodes| - i, 0, |nodes[i].children| - k
  {
    if k < |nodes[i].children| {
      var c := nodes[i].children[k];
      assert parent[c] == i;
      WalkSound(nodes, parent, c, m, st);
      var (r, st1) := MutationsWalk(nodes, c, m, st);
      if r.Fail? {
        ChildFailed(nodes, parent, st, st, st1, i, k, r.error);
      } else {
        ChildRecorded(nodes, parent, st, st, st1, i, k);
        ChildrenSound(nodes, parent, i, k + 1, m, st1);
        SameOutsideTrans(Preorder(nodes, i), Preorder(nodes, i), st, st1, ChildrenFrom(nodes, i, k + 1, m, st1).1);
      }
    }
  }

  /** The arena after `leaf` is appended as the last child of node `b`. */
  function Attached(nodes: seq<TreeNode>, b: nat, leaf: TreeNode): (r: seq<TreeNode>)
    requires b < |nodes|
    ensures |r| == |nodes| + 1 && r[|nodes|] == leaf
    ensures r[b].children == nodes[b].children + [|nodes|]
    ensures r[b].attrs == nodes[b].attrs && r[b].branchMuts == nodes[b].branchMuts
    ensures Shaped(nodes) && leaf.children == [] ==> Shaped(r)
    ensures forall j :: 0 <= j < |nodes| && j != b ==> r[j] == nodes[j]
  {
    nodes[b := nodes[b].(children := nodes[b].children + [|nodes|])] + [leaf]
  }

  /** After an attachment the arena is still a tree with matching parents. */
  lemma AttachKeepsShape(nodes: seq<TreeNode>, parent: seq<nat>, b: nat, leaf: TreeNode)
    requires ParentsOk(nodes, parent) && b < |nodes| && leaf.children == []
    ensures ParentsOk(Attached(nodes, b, leaf), parent + [b])
  {
    var n := |nodes|;
    var nodes' := Attached(nodes, b, leaf);
    var parent' := parent + [b];
    forall i, q | 0 <= i < |nodes'| && 0 <= q < |nodes'[i].children|
      ensures i < nodes'[i].children[q] < |nodes'| && parent'[nodes'[i].children[q]] == i
    {
      if i != b {
        assert nodes'[i].children == nodes[i].children;
      } else if q < |nodes[b].children| {
        assert nodes'[b].children[q] == nodes[b].children[q];
      }
    }
    forall j | 0 < j < |nodes'| ensures parent'[j] < j && j in nodes'[parent'[j]].children {
      if j < n {
        assert j in nodes[parent[j]].children;
      } else {
        assert nodes'[b].children[|nodes[b].children|] == n;
      }
    }
  }

  /** Attaching a leaf changes no existing node's accumulated map. */
  lemma AttachFrame(nodes: seq<TreeNode>, parent: seq<nat>, b: nat, leaf: TreeNode)
    requires ParentsOk(nodes, parent) && b < |nodes| && leaf.children == []
    ensures ParentsOk(Attached(nodes, b, leaf), parent + [b])
    ensures forall j :: 0 <= j < |nodes| ==> AccumAt(Attached(nodes, b, leaf), parent + [b], j) == AccumAt(nodes, parent, j)
  {
    var nodes', parent' := Attached(nodes, b, leaf), parent + [b];
    AttachKeepsShape(nodes, parent, b, leaf);
    assert forall q :: 0 <= q < |nodes| ==> nodes'[q].branchMuts == nodes[q].branchMuts && parent'[q] == parent[q];
    forall j | 0 <= j < |nodes| ensures AccumAt(nodes', parent', j) == AccumAt(nodes, parent, j) {
      AccumAtFrame(nodes, parent, nodes', parent', j);
    }
  }

  /** The new leaf's accumulated map is its branch replayed onto its
      parent's. */
  lemma AttachedLeafAccum(nodes: seq<TreeNode>, parent: seq<nat>, b: nat, leaf: TreeNode,
                          pm: MutMap, leafMap: MutMap)
    requires ParentsOk(nodes, parent) && b < |nodes| && leaf.children == []
    requires AccumAt(nodes, parent, b) == Ok(pm)
    requires ApplyTokens(pm, leaf.branchMuts) == Ok(leafMap)
    ensures ParentsOk(Attached(nodes, b, leaf), parent + [b])
    ensures AccumAt(Attached(nodes, b, leaf), parent + [b], |nodes|) == Ok(leafMap)
  {
    var nodes', parent' := Attached(nodes, b, leaf), parent + [b];
    AttachFrame(nodes, parent, b, leaf);
    assert parent'[|nodes|] == b && nodes'[|nodes|] == leaf;
    assert AccumAt(nodes', parent', b) == Ok(pm);
  }

  /** After an attachment whose leaf replays onto its parent's map, every
      node still carries its accumulated map. */
  lemma AttachKeepsAccumulated(nodes: seq<TreeNode>, parent: seq<nat>, state: map<nat, MutMap>,
                               b: nat, leaf: TreeNode, leafMap: MutMap)
    requires b < |nodes| && leaf.children == []
    requires AllRecorded(nodes, parent, state)
    requires ApplyTokens(state[b], leaf.branchMuts) == Ok(leafMap)
    ensures AllRecorded(Attached(nodes, b, leaf), parent + [b], state[|nodes| := leafMap])
  {
    var n := |nodes|;
    var nodes', parent' := Attached(nodes, b, leaf), parent + [b];
    AttachFrame(nodes, parent, b, leaf);
    var state' := state[n := leafMap];
    AttachedLeafAccum(nodes, parent, b, leaf, state[b], leafMap);
    forall j | 0 <= j < |nodes'|
      ensures AccumAt(nodes', parent', j).Ok? && j in state' && state'[j] == AccumAt(nodes', parent', j).value
    {
      if j < n {
        assert AccumAt(nodes', parent', j) == AccumAt(nodes, parent, j);
      }
    }
  }

  /** An attachment of a leaf whose branch replays onto its base node's map
      keeps the arena a tree, keeps every recorded map on an existing node,
      and keeps every node carrying its accumulated map. */
  lemma AttachSound(nodes: seq<TreeNode>, parent: seq<nat>, state: map<nat, MutMap>,
                    b: nat, s: Sample, rootSeq: string, leaf: TreeNode, leafMap: MutMap)
    requires ParentsOk(nodes, parent) && b < |nodes| && leaf.children == []
    requires KeysBelow(state, |nodes|)
    requires b in state && RootCovers(state[b], s.mutations, rootSeq)
    requires leaf.branchMuts == FormatAll(Diffs(state[b], s.mutations, rootSeq))
    requires leafMap == Overlay(state[b], Diffs(state[b], s.mutations, rootSeq))
    ensures var n := |nodes|;
            var nodes' := Attached(nodes, b, leaf);
            && ParentsOk(nodes', parent + [b])
            && KeysBelow(state[n := leafMap], |nodes'|)
            && (AllRecorded(nodes, parent, state) ==> AllRecorded(nodes', parent + [b], state[n := leafMap]))
  {
    AttachKeepsShape(nodes, parent, b, leaf);
    if AllRecorded(nodes, parent, state) {
      DiffsReplay(state[b], s.mutations, rootSeq);
      AttachKeepsAccumulated(nodes, parent, state, b, leaf, leafMap);
    }
  }

  /** The leaf made for a sample, before its branch and divergence are set:
      named after the sample, flagged as new, labelled with its clade and QC
      status, and without children or branch tokens. */
  function GetNodeStruct(s: Sample): (n: TreeNode)
    ensures n.children == [] && n.branchMuts == [] && n.attrs.div == None
    ensures n.attrs.name == s.seqName + "_clades" && n.attrs.newNode == Some("Yes")
    ensures n.attrs.clade == Some(s.clade) && n.attrs.qcStatus == Some(s.qcStatus)
  {
    TreeNode(NodeAttrs(s.seqName + "_clades", Some(s.clade), Some("Yes"), Some(s.qcStatus), None), [], [])
  }

  /** The divergence read from a node, absent meaning 0. */
  function BaseDiv(n: TreeNode): (d: real)
    ensures n.attrs.div.Some? ==> d == n.attrs.div.value
    ensures n.attrs.div.None? ==> d == 0.0
  {
    match n.attrs.div
    case Some(v) => v
    case None => 0.0
  }

  /** A new leaf's divergence: its base node's plus one per residual
      substitution. */
  function LeafDiv(base: TreeNode, count: nat): (d: real)
    ensures d >= BaseDiv(base)
    ensures d - BaseDiv(base) == count as real
  {
    BaseDiv(base) + count as real
  }

  /** The leaf attached for a sample with the given residual tokens. */
  function PlacedLeaf(s: Sample, tokens: seq<string>, div: real): (n: TreeNode)
    ensures n.children == [] && n.branchMuts == tokens && n.attrs.div == Some(div)
    ensures n.attrs.name == s.seqName + "_clades" && n.attrs.newNode == Some("Yes")
    ensures n.attrs.clade == Some(s.clade) && n.attrs.qcStatus == Some(s.qcStatus)
  {
    var n := GetNodeStruct(s);
    n.(branchMuts := tokens, attrs := n.attrs.(div := Some(div)))
  }

  class WorkingTree {
    var nodes: seq<TreeNode>
    var state: map<nat, MutMap>
    ghost var parent: seq<nat>

    ghost predicate Valid()
      reads this
    {
      && |nodes| > 0
      && ParentsOk(nodes, parent)
      && KeysBelow(state, |nodes|)
    }

    /** Every node carries its accumulated map. */
    ghost predicate Accumulated()
      reads this
    {
      AllRecorded(nodes, parent, state)
    }

    /** The working copy of a tree document's nodes, with no maps yet. */
    constructor (tree: seq<TreeNode>)
      requires IsArena(tree)
      ensures Valid() && nodes == tree && state == map[] && parent == Parents(tree)
    {
      nodes := tree;
      state := map[];
      parent := Parents(tree);
    }

    /** `mutations_on_tree`: replays node `i`'s branch over `inherited`,
        records the result and visits the children with it; the first
        branch that fails to parse or contradicts its parent's map ends the
        traversal. */
    method MutationsOnTree(i: nat, inherited: MutMap) returns (r: Outcome<PlaceError>)
      requires Valid() && i < |nodes|
      modifies this`state
      ensures Valid()
      ensures (r, state) == MutationsWalk(nodes, i, inherited, old(state))
      decreases |nodes| - i, 1
    {
      var branch := ApplyBranch(inherited, nodes[i].branchMuts);
      if branch.Err? {
        return Fail(branch.error);
      }
      state := state[i := branch.value];
      r := MutationsOnChildren(i, branch.value);
    }

    /** The loop of `mutations_on_tree` over the children of `i`. */
    method MutationsOnChildren(i: nat, m: MutMap) returns (r: Outcome<PlaceError>)
      requires Valid() && i < |nodes|
      modifies this`state
      ensures Valid()
      ensures (r, state) == ChildrenFrom(nodes, i, 0, m, old(state))
      decreases |nodes| - i, 0
    {
      var children := nodes[i].children;
      var k := 0;
      while k < |children|
        invariant 0 <= k <= |children|
        invariant Valid()
        invariant ChildrenFrom(nodes, i, k, m, state) == ChildrenFrom(nodes, i, 0, m, old(state))
      {
        r := MutationsOnTree(children[k], m);
        if r.Fail? {
          return;
        }
        k := k + 1;
      }
      r := Pass;
    }

    /** `closest_match`: the first node of `i`'s subtree, in preorder, at
        the smallest distance to the sample, and that distance. */
    method ClosestMatch(i: nat, s: Sample) returns (best: int, bestNode: nat)
      requires Shaped(nodes) && i < |nodes|
      ensures Winner(Preorder(nodes, i), state, s.mutations, best, bestNode)
      ensures bestNode in Preorder(nodes, i) && best == Dist(NodeMap(state, bestNode), s.mutations)
      ensures forall j :: j in Preorder(nodes, i) ==> best <= Dist(NodeMap(state, j), s.mutations)
      decreases |nodes| - i
    {
      best := CalculateDistance(NodeMap(state, i), s.mutations);
      bestNode := i;
      var children := nodes[i].children;
      var k := 0;
      SearchStart(nodes, state, s.mutations, i, best, bestNode);
      while k < |children|
        invariant 0 <= k <= |children|
        invariant Winner([i] + Forest(nodes, i, k), state, s.mutations, best, bestNode)
      {
        var childBest, childNode := ClosestMatch(children[k], s);
        SearchStep(nodes, state, s.mutations, i, k, best, bestNode, childBest, childNode);
        if childBest < best {
          best := childBest;
          bestNode := childNode;
        }
        k := k + 1;
      }
      WinnerIsMinimal(Preorder(nodes, i), state, s.mutations, best, bestNode);
    }

    /** `attach_to_tree`: appends a leaf for the sample as the last child of
        node `b`, carrying the sample's residual tokens relative to `b`,
        divergence `b`'s plus their count, and `b`'s map overlaid with them. */
    method AttachToTree(b: nat, s: Sample, rootSeq: string)
      requires Valid() && b < |nodes| && b in state
      requires RootCovers(state[b], s.mutations, rootSeq)
      modifies this
      ensures Valid()
      ensures var n := |old(nodes)|;
              var diffs := Diffs(old(state)[b], s.mutations, rootSeq);
              && nodes == Attached(old(nodes), b, PlacedLeaf(s, FormatAll(diffs), LeafDiv(old(nodes)[b], |diffs|)))
              && state == old(state)[n := Overlay(old(state)[b], diffs)]
              && parent == old(parent) + [b]
      ensures old(Accumulated()) ==> Accumulated()
    {
      var baseMap := state[b];
      ghost var diffs := Diffs(baseMap, s.mutations, rootSeq);
      var tokens := GetDifferences(baseMap, s.mutations, rootSeq);
      var div := BaseDiv(nodes[b]) + |tokens| as real;
      var leaf := PlacedLeaf(s, tokens, div);
      assert leaf == PlacedLeaf(s, FormatAll(diffs), LeafDiv(nodes[b], |diffs|));
      var leafMap := LeafMutations(baseMap, diffs, tokens);
      AttachSound(nodes, parent, state, b, s, rootSeq, leaf, leafMap);
      state := state[|nodes| := leafMap];
      nodes := Attached(nodes, b, leaf);
      parent := parent + [b];
    }

    /** The loop of `attach_to_tree` that writes the new leaf's branch
        tokens over a copy of its base node's map. */
    method LeafMutations(baseMap: MutMap, ghost diffs: seq<Mut>, tokens: seq<string>) returns (leafMap: MutMap)
      requires tokens == FormatAll(diffs)
      ensures leafMap == Overlay(baseMap, diffs)
    {
      leafMap := baseMap;
      var k := 0;
      while k < |tokens|
        invariant 0 <= k <= |tokens|
        invariant leafMap == Overlay(baseMap, diffs[..k])
      {
        ParseFormat(diffs[k]);
        var parsed := ParseMutationOrThrow(tokens[k]);
        var mu := parsed.value;
        assert diffs[..k + 1][..k] == diffs[..k];
        leafMap := leafMap[mu.pos := mu.der];
        k := k + 1;
      }
      assert diffs[..k] == diffs;
    }

    /** `remove_mutations`: drops the map of every node of `i`'s subtree;
        from the root, that is every node. */
    method RemoveMutations(i: nat)
      requires Valid() && i < |nodes|
      modifies this`state
      ensures Valid()
      ensures Removed(Preorder(nodes, i), state, old(state))
      ensures i == 0 ==> state == map[]
      decreases |nodes| - i, 1
    {
      if i in state {
        state := state - {i};
      }
      ghost var cleared := state;
      RemoveFromChildren(i);
      RemovedAppend([i], Forest(nodes, i, |nodes[i].children|), old(state), cleared, state);
      if i == 0 {
        RootReachesAll(nodes, parent);
      }
    }

    /** The loop of `remove_mutations` over the children of `i`. */
    method RemoveFromChildren(i: nat)
      requires Valid() && i < |nodes|
      modifies this`state
      ensures Valid()
      ensures Removed(Forest(nodes, i, |nodes[i].children|), state, old(state))
      decreases |nodes| - i, 0
    {
      var children := nodes[i].children;
      var k := 0;
      while k < |children|
        invariant 0 <= k <= |children|
        invariant Valid()
        invariant Removed(Forest(nodes, i, k), state, old(state))
      {
        ghost var before := state;
        RemoveMutations(children[k]);
        RemovedAppend(Forest(nodes, i, k), Preorder(nodes, children[k]), old(state), before, state);
        k := k + 1;
      }
    }
  }
}
