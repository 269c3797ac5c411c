/**
 * What AssignMeshesToHierarchy does to the node tree: the nodes it finds
 * keep everything but their child lists, which only grow at the end; one
 * new leaf per scene mesh, so every mesh is referenced exactly once more;
 * the arena stays a well-formed tree; and each leaf hangs under the node the
 * storey test picked for its storey, or under the semantic parent.
 */
module MeshPlacement {
  import opened Common
  import opened ImporterCore
  import opened SceneTypes
  import opened SceneTree
  import opened MeshGrouping
  import opened MeshAssignment

  /** `b` extends `a`: the old nodes keep name, parent, meshes and metadata, and their children are a prefix of the new ones. */
  predicate Grown(a: seq<Node>, b: seq<Node>) {
    |a| <= |b|
    && forall k :: 0 <= k < |a| ==>
         b[k].name == a[k].name && b[k].parent == a[k].parent && b[k].meshes == a[k].meshes
         && b[k].metadata == a[k].metadata && a[k].children <= b[k].children
  }

  lemma GrownTrans(a: seq<Node>, b: seq<Node>, c: seq<Node>)
    requires Grown(a, b) && Grown(b, c)
    ensures Grown(a, c)
  {
    forall k | 0 <= k < |a|
      ensures a[k].children <= c[k].children
    {
      var x, y, z := a[k].children, b[k].children, c[k].children;
      assert x == y[..|x|] && y == z[..|y|];
      assert z[..|y|][..|x|] == z[..|x|];
    }
  }

  /** `lo, lo + 1, ..., lo + n - 1`. */
  function Span(lo: nat, n: nat): (r: seq<nat>)
    ensures |r| == n && forall k :: 0 <= k < n ==> r[k] == lo + k
  {
    if n == 0 then [] else Span(lo, n - 1) + [lo + n - 1]
  }

  /** A node made for mesh `i`, whatever children it has gained since. */
  predicate LeafFor(n: Node, meshes: seq<Mesh>, meshMeta: map<nat, MeshMetadata>, i: nat)
    requires i < |meshes|
  {
    n.name == meshes[i].name && n.meshes == [i] && n.metadata == LeafMetadata(meshMeta, i)
  }

  /** The nodes from `lo` on are the leaves of `idxs`, in order, and nothing follows them. */
  predicate LeavesFor(r: seq<Node>, lo: nat, idxs: seq<nat>, meshes: seq<Mesh>, meshMeta: map<nat, MeshMetadata>)
    requires Below(idxs, |meshes|)
  {
    |r| == lo + |idxs|
    && forall k :: 0 <= k < |idxs| ==> LeafFor(r[lo + k], meshes, meshMeta, idxs[k])
  }

  /** Attaching leaves under `target` changes no other old node. */
  lemma {:induction false} AttachAllKeeps(nodes: seq<Node>, target: nat, idxs: seq<nat>, meshes: seq<Mesh>, meshMeta: map<nat, MeshMetadata>)
    requires Ordered(nodes) && target < |nodes| && Below(idxs, |meshes|)
    ensures var r := AttachAll(nodes, target, idxs, meshes, meshMeta);
            forall k :: 0 <= k < |nodes| && k != target ==> r[k] == nodes[k]
    decreases |idxs|
  {
    if |idxs| > 0 {
      AttachAllKeeps(nodes, target, idxs[..|idxs| - 1], meshes, meshMeta);
    }
  }

  /** The target's children are extended by the new leaves' indices, in order; nothing else of it changes. */
  lemma {:induction false} AttachAllTarget(nodes: seq<Node>, target: nat, idxs: seq<nat>, meshes: seq<Mesh>, meshMeta: map<nat, MeshMetadata>)
    requires Ordered(nodes) && target < |nodes| && Below(idxs, |meshes|)
    ensures var r := AttachAll(nodes, target, idxs, meshes, meshMeta);
            r[target] == nodes[target].(children := nodes[target].children + Span(|nodes|, |idxs|))
    decreases |idxs|
  {
    if |idxs| > 0 {
      var init := idxs[..|idxs| - 1];
      AttachAllTarget(nodes, target, init, meshes, meshMeta);
      assert Span(|nodes|, |idxs|) == Span(|nodes|, |init|) + [|nodes| + |init|];
    }
  }

  /** The new nodes are, in order, the leaves of `idxs` under `target`. */
  lemma {:induction false} AttachAllLeaves(nodes: seq<Node>, target: nat, idxs: seq<nat>, meshes: seq<Mesh>, meshMeta: map<nat, MeshMetadata>)
    requires Ordered(nodes) && target < |nodes| && Below(idxs, |meshes|)
    ensures var r := AttachAll(nodes, target, idxs, meshes, meshMeta);
            forall k :: 0 <= k < |idxs| ==> r[|nodes| + k] == MeshLeaf(meshes, meshMeta, idxs[k], target)
    decreases |idxs|
  {
    if |idxs| > 0 {
      var init := idxs[..|idxs| - 1];
      AttachAllLeaves(nodes, target, init, meshes, meshMeta);
      var prev := AttachAll(nodes, target, init, meshes, meshMeta);
      var r := AttachAll(nodes, target, idxs, meshes, meshMeta);
      forall k | 0 <= k < |idxs|
        ensures r[|nodes| + k] == MeshLeaf(meshes, meshMeta, idxs[k], target)
      {
        if k < |init| {
          assert r[|nodes| + k] == prev[|nodes| + k];
          assert init[k] == idxs[k];
        }
      }
    }
  }

  lemma AttachAllGrown(nodes: seq<Node>, target: nat, idxs: seq<nat>, meshes: seq<Mesh>, meshMeta: map<nat, MeshMetadata>)
    requires Ordered(nodes) && target < |nodes| && Below(idxs, |meshes|)
    ensures var r := AttachAll(nodes, target, idxs, meshes, meshMeta);
            Grown(nodes, r) && LeavesFor(r, |nodes|, idxs, meshes, meshMeta)
  {
    AttachAllKeeps(nodes, target, idxs, meshes, meshMeta);
    AttachAllTarget(nodes, target, idxs, meshes, meshMeta);
    AttachAllLeaves(nodes, target, idxs, meshes, meshMeta);
  }

  /** Attaching leaves keeps the arena a well-formed tree. */
  lemma {:induction false} AttachAllTree(nodes: seq<Node>, target: nat, idxs: seq<nat>, meshes: seq<Mesh>, meshMeta: map<nat, MeshMetadata>)
    requires Tree(nodes) && target < |nodes| && Below(idxs, |meshes|)
    ensures Tree(AttachAll(nodes, target, idxs, meshes, meshMeta))
    decreases |idxs|
  {
    if |idxs| > 0 {
      var init := idxs[..|idxs| - 1];
      AttachAllTree(nodes, target, init, meshes, meshMeta);
      var prev := AttachAll(nodes, target, init, meshes, meshMeta);
      AppendChildTree(prev, target, MeshLeaf(meshes, meshMeta, idxs[|idxs| - 1], target));
    }
  }

  lemma FlattenBelow(groups: seq<(nat, seq<nat>)>, n: nat)
    requires GroupsBelow(groups, n)
    ensures Below(Flatten(groups), n)
    decreases |groups|
  {
    if |groups| > 0 {
      var init := groups[..|groups| - 1];
      assert forall a :: 0 <= a < |init| ==> init[a] == groups[a];
      FlattenBelow(init, n);
    }
  }

  /** The storey groups add the leaves of their lists, one list after the other, and keep the tree well-formed. */
  lemma {:induction false} PlaceGroupsShape(nodes: seq<Node>, root: nat, groups: seq<(nat, seq<nat>)>, meshes: seq<Mesh>, meshMeta: map<nat, MeshMetadata>)
    requires Ordered(nodes) && root < |nodes| && GroupsBelow(groups, |meshes|)
    ensures Below(Flatten(groups), |meshes|)
    ensures var r := PlaceGroups(nodes, root, groups, meshes, meshMeta);
            Grown(nodes, r) && LeavesFor(r, |nodes|, Flatten(groups), meshes, meshMeta)
            && (Tree(nodes) ==> Tree(r))
    decreases |groups|
  {
    FlattenBelow(groups, |meshes|);
    if |groups| > 0 {
      var init := groups[..|groups| - 1];
      assert forall a :: 0 <= a < |init| ==> init[a] == groups[a];
      PlaceGroupsShape(nodes, root, init, meshes, meshMeta);
      var prev := PlaceGroups(nodes, root, init, meshes, meshMeta);
      var (s, idxs) := groups[|groups| - 1];
      var t := StoreyTarget(prev, root, s);
      var r := PlaceGroups(nodes, root, groups, meshes, meshMeta);
      assert r == AttachAll(prev, t, idxs, meshes, meshMeta);
      AttachAllGrown(prev, t, idxs, meshes, meshMeta);
      if Tree(nodes) {
        AttachAllTree(prev, t, idxs, meshes, meshMeta);
      }
      GrownTrans(nodes, prev, r);
      LeavesConcat(nodes, prev, r, Flatten(init), idxs, meshes, meshMeta);
      assert Flatten(groups) == Flatten(init) + idxs;
    }
  }

  lemma BelowConcat(a: seq<nat>, b: seq<nat>, n: nat)
    requires Below(a, n) && Below(b, n)
    ensures Below(a + b, n)
  {
    forall k | 0 <= k < |a + b|
      ensures (a + b)[k] < n
    {
      if k >= |a| {
        assert (a + b)[k] == b[k - |a|];
      }
    }
  }

  /** Leaves added in two rounds are the leaves of both lists. */
  lemma LeavesConcat(nodes: seq<Node>, mid: seq<Node>, r: seq<Node>, a: seq<nat>, b: seq<nat>, meshes: seq<Mesh>, meshMeta: map<nat, MeshMetadata>)
    requires Below(a, |meshes|) && Below(b, |meshes|)
    requires LeavesFor(mid, |nodes|, a, meshes, meshMeta) && Grown(mid, r) && LeavesFor(r, |mid|, b, meshes, meshMeta)
    ensures Below(a + b, |meshes|) && LeavesFor(r, |nodes|, a + b, meshes, meshMeta)
  {
    BelowConcat(a, b, |meshes|);
    forall k | 0 <= k < |a| + |b|
      ensures LeafFor(r[|nodes| + k], meshes, meshMeta, (a + b)[k])
    {
      if k < |a| {
        assert LeafFor(mid[|nodes| + k], meshes, meshMeta, a[k]);
      } else {
        assert r[|mid| + (k - |a|)] == r[|nodes| + k];
        assert LeafFor(r[|mid| + (k - |a|)], meshes, meshMeta, b[k - |a|]);
      }
    }
  }

  /** Every mesh index of a storey list goes to that storey. */
  ghost predicate KeyConsistent(groups: seq<(nat, seq<nat>)>, meshMeta: map<nat, MeshMetadata>, elementToStorey: map<nat, nat>) {
    forall a, j :: 0 <= a < |groups| && 0 <= j < |groups[a].1| ==>
      TargetStorey(meshMeta, elementToStorey, groups[a].1[j]) == Some(groups[a].0)
  }

  /** The node a grouped leaf hangs under is the root or a node whose name passes the storey test for its mesh's storey. */
  ghost predicate StoreyParent(r: seq<Node>, lo: nat, k: nat, root: nat, meshMeta: map<nat, MeshMetadata>, elementToStorey: map<nat, nat>, i: nat) {
    var leaf := lo + k;
    leaf < |r| && r[leaf].parent.Some? && r[leaf].parent.value < |r|
    && TargetStorey(meshMeta, elementToStorey, i).Some?
    && (r[leaf].parent.value == root
        || Matches(r[r[leaf].parent.value].name, StoreyFor(TargetStorey(meshMeta, elementToStorey, i).value)))
  }

  lemma StoreyParentGrown(r: seq<Node>, r2: seq<Node>, lo: nat, k: nat, root: nat, meshMeta: map<nat, MeshMetadata>, elementToStorey: map<nat, nat>, i: nat)
    requires StoreyParent(r, lo, k, root, meshMeta, elementToStorey, i) && Grown(r, r2)
    ensures StoreyParent(r2, lo, k, root, meshMeta, elementToStorey, i)
  {
  }

  /** Each leaf of a storey group hangs under the node found for that storey, or under the root. */
  lemma {:induction false} PlaceGroupsParents(nodes: seq<Node>, root: nat, groups: seq<(nat, seq<nat>)>, meshes: seq<Mesh>,
                                              meshMeta: map<nat, MeshMetadata>, elementToStorey: map<nat, nat>)
    requires Ordered(nodes) && root < |nodes| && GroupsBelow(groups, |meshes|)
    requires KeyConsistent(groups, meshMeta, elementToStorey)
    ensures var r := PlaceGroups(nodes, root, groups, meshes, meshMeta);
            var fl := Flatten(groups);
            forall k :: 0 <= k < |fl| ==> StoreyParent(r, |nodes|, k, root, meshMeta, elementToStorey, fl[k])
    decreases |groups|
  {
    if |groups| > 0 {
      var init := groups[..|groups| - 1];
      assert forall a :: 0 <= a < |init| ==> init[a] == groups[a];
      PlaceGroupsParents(nodes, root, init, meshes, meshMeta, elementToStorey);
      var prev := PlaceGroups(nodes, root, init, meshes, meshMeta);
      var (s, idxs) := groups[|groups| - 1];
      var t := StoreyTarget(prev, root, s);
      var r := PlaceGroups(nodes, root, groups, meshes, meshMeta);
      assert r == AttachAll(prev, t, idxs, meshes, meshMeta);
      assert Grown(prev, r) by {
        AttachAllGrown(prev, t, idxs, meshes, meshMeta);
      }
      assert forall k :: |prev| <= k < |r| ==> r[k].parent == Some(t) by {
        AttachAllLeaves(prev, t, idxs, meshes, meshMeta);
        forall k | |prev| <= k < |r|
          ensures r[k].parent == Some(t)
        {
          assert r[|prev| + (k - |prev|)] == MeshLeaf(meshes, meshMeta, idxs[k - |prev|], t);
        }
      }
      assert forall j :: 0 <= j < |idxs| ==> TargetStorey(meshMeta, elementToStorey, idxs[j]) == Some(s) by {
        assert idxs == groups[|groups| - 1].1;
      }
      assert |prev| == |nodes| + |Flatten(init)| && |r| == |prev| + |idxs|;
      assert t < |prev| && (t == root || Matches(prev[t].name, StoreyFor(s)));
      assert forall k :: 0 <= k < |Flatten(init)| ==> StoreyParent(prev, |nodes|, k, root, meshMeta, elementToStorey, Flatten(init)[k]);
      ParentsConcat(nodes, prev, r, Flatten(init), idxs, root, t, s, meshMeta, elementToStorey);
      assert Flatten(groups) == Flatten(init) + idxs;
    }
  }

  /** The parents of leaves added in two rounds, the second under `t`, the node found for storey `s`. */
  lemma ParentsConcat(nodes: seq<Node>, prev: seq<Node>, r: seq<Node>, fi: seq<nat>, idxs: seq<nat>, root: nat, t: nat, s: nat,
                      meshMeta: map<nat, MeshMetadata>, elementToStorey: map<nat, nat>)
    requires Grown(prev, r) && |prev| == |nodes| + |fi| && |r| == |prev| + |idxs|
    requires forall k :: 0 <= k < |fi| ==> StoreyParent(prev, |nodes|, k, root, meshMeta, elementToStorey, fi[k])
    requires t < |prev| && (t == root || Matches(prev[t].name, StoreyFor(s)))
    requires forall k :: |prev| <= k < |r| ==> r[k].parent == Some(t)
    requires forall j :: 0 <= j < |idxs| ==> TargetStorey(meshMeta, elementToStorey, idxs[j]) == Some(s)
    ensures forall k :: 0 <= k < |fi + idxs| ==> StoreyParent(r, |nodes|, k, root, meshMeta, elementToStorey, (fi + idxs)[k])
  {
    forall k | 0 <= k < |fi + idxs|
      ensures StoreyParent(r, |nodes|, k, root, meshMeta, elementToStorey, (fi + idxs)[k])
    {
      if k < |fi| {
        StoreyParentGrown(prev, r, |nodes|, k, root, meshMeta, elementToStorey, fi[k]);
      } else {
        var j := k - |fi|;
        assert r[|prev| + j].parent == Some(t);
        assert TargetStorey(meshMeta, elementToStorey, idxs[j]) == Some(s);
      }
    }
  }

  /** Growing the arena keeps every node the walk from `n` visited. */
  lemma {:induction false} PreorderGrown(a: seq<Node>, b: seq<Node>, n: nat, x: nat)
    requires Ordered(a) && Ordered(b) && Grown(a, b) && n < |a| && x in Preorder(a, n)
    ensures x in Preorder(b, n)
    decreases |a| - n
  {
    assert Preorder(b, n)[0] == n;
    if x != n {
      var cs := a[n].children;
      PreorderListMember(a, n, cs, x);
      var j :| 0 <= j < |cs| && x in Preorder(a, cs[j]);
      assert b[n].children[j] == cs[j];
      PreorderGrown(a, b, cs[j], x);
      PreorderChild(b, n, j);
    }
  }

  /** Every node from `lo` on is visited by the walk from `root`. */
  ghost predicate ReachedFrom(r: seq<Node>, root: nat, lo: nat)
    requires Ordered(r) && root < |r|
  {
    forall k :: lo <= k < |r| ==> k in Preorder(r, root)
  }

  lemma AppendChildGrown(nodes: seq<Node>, target: nat, leaf: Node)
    requires target < |nodes|
    ensures Grown(nodes, AppendChild(nodes, target, leaf))
  {
    var cs := nodes[target].children;
    assert cs <= cs + [|nodes|];
  }

  /** A leaf appended under a visited node is visited, and so is every node visited before. */
  lemma AppendChildReached(nodes: seq<Node>, target: nat, leaf: Node, root: nat, lo: nat)
    requires Ordered(nodes) && target < |nodes| && root < |nodes| && leaf.children == []
    requires target in Preorder(nodes, root) && ReachedFrom(nodes, root, lo)
    ensures Ordered(AppendChild(nodes, target, leaf)) && ReachedFrom(AppendChild(nodes, target, leaf), root, lo)
  {
    AppendChildOrdered(nodes, target, leaf);
    AppendChildGrown(nodes, target, leaf);
    var r := AppendChild(nodes, target, leaf);
    var last := |nodes[target].children|;
    assert r[target].children[last] == |nodes|;
    PreorderGrown(nodes, r, root, target);
    ChildVisited(r, root, target, last);
    forall k | lo <= k < |nodes|
      ensures k in Preorder(r, root)
    {
      PreorderGrown(nodes, r, root, k);
    }
  }

  /** Leaves attached under a visited node are visited, and so is every node visited before. */
  lemma {:induction false} AttachAllReached(nodes: seq<Node>, target: nat, idxs: seq<nat>, meshes: seq<Mesh>, meshMeta: map<nat, MeshMetadata>,
                                            root: nat, lo: nat)
    requires Ordered(nodes) && target < |nodes| && root < |nodes| && Below(idxs, |meshes|)
    requires target in Preorder(nodes, root) && ReachedFrom(nodes, root, lo)
    ensures ReachedFrom(AttachAll(nodes, target, idxs, meshes, meshMeta), root, lo)
    decreases |idxs|
  {
    if |idxs| > 0 {
      var init := idxs[..|idxs| - 1];
      AttachAllReached(nodes, target, init, meshes, meshMeta, root, lo);
      var prev := AttachAll(nodes, target, init, meshes, meshMeta);
      AttachAllGrown(nodes, target, init, meshes, meshMeta);
      PreorderGrown(nodes, prev, root, target);
      AppendChildReached(prev, target, MeshLeaf(meshes, meshMeta, idxs[|idxs| - 1], target), root, lo);
    }
  }

  /** The node a storey's meshes go to is one the walk from the root visits. */
  lemma StoreyTargetVisited(nodes: seq<Node>, root: nat, s: nat)
    requires Ordered(nodes) && root < |nodes|
    ensures StoreyTarget(nodes, root, s) in Preorder(nodes, root)
  {
    FindVisited(nodes, root, StoreyFor(s));
    assert Preorder(nodes, root)[0] == root;
  }

  /** Placing the storey groups keeps every visited node visited and makes every new leaf visited. */
  lemma {:induction false} PlaceGroupsReached(nodes: seq<Node>, root: nat, groups: seq<(nat, seq<nat>)>, meshes: seq<Mesh>,
                                              meshMeta: map<nat, MeshMetadata>, lo: nat)
    requires Ordered(nodes) && root < |nodes| && GroupsBelow(groups, |meshes|) && ReachedFrom(nodes, root, lo)
    ensures ReachedFrom(PlaceGroups(nodes, root, groups, meshes, meshMeta), root, lo)
    decreases |groups|
  {
    if |groups| > 0 {
      var init := groups[..|groups| - 1];
      assert forall a :: 0 <= a < |init| ==> init[a] == groups[a];
      PlaceGroupsReached(nodes, root, init, meshes, meshMeta, lo);
      var prev := PlaceGroups(nodes, root, init, meshes, meshMeta);
      var (s, idxs) := groups[|groups| - 1];
      StoreyTargetVisited(prev, root, s);
      AttachAllReached(prev, StoreyTarget(prev, root, s), idxs, meshes, meshMeta, root, lo);
    }
  }

  /** Every node AssignMeshesToHierarchy adds is visited by the walk from the root it was given. */
  lemma AssignMeshesReached(nodes: seq<Node>, root: nat, meshes: seq<Mesh>, meshMeta: map<nat, MeshMetadata>, elementToStorey: map<nat, nat>)
    requires Ordered(nodes) && root < |nodes|
    ensures var r := AssignMeshes(nodes, root, meshes, meshMeta, elementToStorey);
            root < |r| && ReachedFrom(r, root, |nodes|)
  {
    if |meshes| > 0 {
      var g := Group(meshMeta, elementToStorey, |meshes|);
      GroupBelow(meshMeta, elementToStorey, |meshes|);
      PlaceGroupsReached(nodes, root, g.groups, meshes, meshMeta, |nodes|);
      var placed := PlaceGroups(nodes, root, g.groups, meshes, meshMeta);
      if |g.unassigned| > 0 {
        SemanticParentVisited(placed, root);
        AttachAllReached(placed, SemanticParent(placed, root), g.unassigned, meshes, meshMeta, root, |nodes|);
      }
    }
  }

  /** The references to meshes held by the nodes, node after node. */
  function MeshRefs(nodes: seq<Node>): seq<nat> {
    if |nodes| == 0 then [] else MeshRefs(nodes[..|nodes| - 1]) + nodes[|nodes| - 1].meshes
  }

  lemma {:induction false} MeshRefsAppend(a: seq<Node>, b: seq<Node>)
    ensures MeshRefs(a + b) == MeshRefs(a) + MeshRefs(b)
    decreases |b|
  {
    if |b| > 0 {
      var b' := b[..|b| - 1];
      assert (a + b)[..|a + b| - 1] == a + b';
      MeshRefsAppend(a, b');
    } else {
      assert a + b == a;
    }
  }

  lemma {:induction false} MeshRefsSameMeshes(a: seq<Node>, b: seq<Node>)
    requires |a| == |b| && forall k :: 0 <= k < |a| ==> a[k].meshes == b[k].meshes
    ensures MeshRefs(a) == MeshRefs(b)
    decreases |a|
  {
    if |a| > 0 {
      MeshRefsSameMeshes(a[..|a| - 1], b[..|b| - 1]);
    }
  }

  lemma {:induction false} MeshRefsOfLeaves(leaves: seq<Node>, idxs: seq<nat>)
    requires |leaves| == |idxs| && forall k :: 0 <= k < |idxs| ==> leaves[k].meshes == [idxs[k]]
    ensures MeshRefs(leaves) == idxs
    decreases |idxs|
  {
    if |idxs| > 0 {
      MeshRefsOfLeaves(leaves[..|leaves| - 1], idxs[..|idxs| - 1]);
    }
  }

  /** Growing the arena by the leaves of `idxs` adds exactly the references `idxs`. */
  lemma PlacedMeshRefs(nodes: seq<Node>, r: seq<Node>, idxs: seq<nat>, meshes: seq<Mesh>, meshMeta: map<nat, MeshMetadata>)
    requires Below(idxs, |meshes|) && Grown(nodes, r) && LeavesFor(r, |nodes|, idxs, meshes, meshMeta)
    ensures MeshRefs(r) == MeshRefs(nodes) + idxs
  {
    var lo := |nodes|;
    assert r == r[..lo] + r[lo..];
    MeshRefsAppend(r[..lo], r[lo..]);
    MeshRefsSameMeshes(r[..lo], nodes);
    forall k | 0 <= k < |idxs|
      ensures r[lo..][k].meshes == [idxs[k]]
    {
      assert r[lo..][k] == r[lo + k];
    }
    MeshRefsOfLeaves(r[lo..], idxs);
  }

  /** The references to meshes met along the node list `ks`, node after node. */
  function MeshesAlong(nodes: seq<Node>, ks: seq<nat>): seq<nat>
    requires forall j :: 0 <= j < |ks| ==> ks[j] < |nodes|
  {
    if |ks| == 0 then [] else MeshesAlong(nodes, ks[..|ks| - 1]) + nodes[ks[|ks| - 1]].meshes
  }

  /** The references to meshes met by the preorder walk from `root`: what a traversal from the scene root sees. */
  function TreeMeshes(nodes: seq<Node>, root: nat): seq<nat>
    requires Ordered(nodes) && root < |nodes|
  {
    MeshesAlong(nodes, Preorder(nodes, root))
  }

  /** When node `h` alone holds mesh `i`, once, the references along `ks` hold `i` as often as `ks` lists `h`. */
  lemma {:induction false} AlongCount(nodes: seq<Node>, ks: seq<nat>, i: nat, h: nat)
    requires forall j :: 0 <= j < |ks| ==> ks[j] < |nodes|
    requires forall k :: 0 <= k < |nodes| ==> multiset(nodes[k].meshes)[i] == if k == h then 1 else 0
    ensures multiset(MeshesAlong(nodes, ks))[i] == multiset(ks)[h]
    decreases |ks|
  {
    if |ks| > 0 {
      var init := ks[..|ks| - 1];
      AlongCount(nodes, init, i, h);
      assert ks == init + [ks[|ks| - 1]];
    }
  }

  /** In a tree where node `h` alone holds mesh `i`, once, the walk from `root` meets `i` once if it visits `h`, and never otherwise. */
  lemma TreeMeshesCount(nodes: seq<Node>, root: nat, i: nat, h: nat)
    requires Tree(nodes) && root < |nodes|
    requires forall k :: 0 <= k < |nodes| ==> multiset(nodes[k].meshes)[i] == if k == h then 1 else 0
    ensures multiset(TreeMeshes(nodes, root))[i] == if h in Preorder(nodes, root) then 1 else 0
  {
    AlongCount(nodes, Preorder(nodes, root), i, h);
    if h in Preorder(nodes, root) {
      PreorderVisitsOnce(nodes, root, h);
    }
  }

  /** A value at two positions of a list is counted at least twice. */
  lemma TwiceCounted(s: seq<nat>, a: nat, b: nat)
    requires a < b < |s| && s[a] == s[b]
    ensures multiset(s)[s[a]] >= 2
  {
    assert s == s[..a] + [s[a]] + s[a + 1..b] + [s[b]] + s[b + 1..];
  }

  /** A value counted at most once sits at one position only. */
  lemma OnlyPosition(s: seq<nat>, x: nat, a: nat, b: nat)
    requires multiset(s)[x] <= 1 && a < |s| && b < |s| && s[a] == x && s[b] == x
    ensures a == b
  {
    if a < b {
      TwiceCounted(s, a, b);
    } else if b < a {
      TwiceCounted(s, b, a);
    }
  }

  /**
   * In an arena whose nodes below `lo` hold no meshes and whose nodes from
   * `lo` on hold one index each, listed by `all`, the only node holding `i` is
   * the one made for it when `all` lists it once; `h` is that node, or lies
   * past the arena when `all` does not list `i`.
   */
  lemma LeafHolder(r: seq<Node>, lo: nat, all: seq<nat>, i: nat) returns (h: nat)
    requires |r| == lo + |all| && multiset(all)[i] <= 1
    requires forall k :: 0 <= k < lo ==> r[k].meshes == []
    requires forall j :: 0 <= j < |all| ==> r[lo + j].meshes == [all[j]]
    ensures lo <= h && (h < |r| <==> i in all)
    ensures forall k :: 0 <= k < |r| ==> multiset(r[k].meshes)[i] == if k == h then 1 else 0
  {
    h := |r|;
    if i in all {
      var j :| 0 <= j < |all| && all[j] == i;
      h := lo + j;
    }
    forall k | 0 <= k < |r|
      ensures multiset(r[k].meshes)[i] == if k == h then 1 else 0
    {
      if k >= lo {
        var j := k - lo;
        assert r[lo + j].meshes == [all[j]];
        if all[j] == i {
          OnlyPosition(all, i, j, h - lo);
        }
      }
    }
  }

  /** LeafHolder for an arena grown from mesh-free nodes by the leaves of `all`. */
  lemma GrownHolder(nodes: seq<Node>, r: seq<Node>, all: seq<nat>, meshes: seq<Mesh>, meshMeta: map<nat, MeshMetadata>, i: nat)
    returns (h: nat)
    requires Below(all, |meshes|) && Grown(nodes, r) && LeavesFor(r, |nodes|, all, meshes, meshMeta)
    requires (forall k :: 0 <= k < |nodes| ==> nodes[k].meshes == []) && multiset(all)[i] <= 1
    ensures |nodes| <= h && (h < |r| <==> i in all)
    ensures forall k :: 0 <= k < |r| ==> multiset(r[k].meshes)[i] == if k == h then 1 else 0
  {
    forall j | 0 <= j < |all|
      ensures r[|nodes| + j].meshes == [all[j]]
    {
      assert LeafFor(r[|nodes| + j], meshes, meshMeta, all[j]);
    }
    h := LeafHolder(r, |nodes|, all, i);
  }

  /**
   * Over a mesh-free tree, AssignMeshesToHierarchy leaves a tree whose walk
   * from the root meets every scene mesh exactly once and no other index.
   */
  lemma AssignedTreeMeshes(nodes: seq<Node>, root: nat, meshes: seq<Mesh>, meshMeta: map<nat, MeshMetadata>,
                           elementToStorey: map<nat, nat>, i: nat)
    requires Tree(nodes) && root < |nodes| && forall k :: 0 <= k < |nodes| ==> nodes[k].meshes == []
    ensures var r := AssignMeshes(nodes, root, meshes, meshMeta, elementToStorey);
            Tree(r) && root < |r| && multiset(TreeMeshes(r, root))[i] == if i < |meshes| then 1 else 0
  {
    var r := AssignMeshes(nodes, root, meshes, meshMeta, elementToStorey);
    if |meshes| == 0 {
      TreeMeshesCount(r, root, i, |r|);
    } else {
      var g := Group(meshMeta, elementToStorey, |meshes|);
      GroupBelow(meshMeta, elementToStorey, |meshes|);
      GroupPartition(meshMeta, elementToStorey, |meshes|);
      AssignShape(nodes, root, g, meshes, meshMeta);
      AssignMeshesReached(nodes, root, meshes, meshMeta, elementToStorey);
      assert r == Assign(nodes, root, g, meshes, meshMeta);
      var all := Flatten(g.groups) + g.unassigned;
      RangeOnce(|meshes|, i);
      var h := GrownHolder(nodes, r, all, meshes, meshMeta, i);
      TreeMeshesCount(r, root, i, h);
    }
  }

  /** Assign adds the leaves of the storey lists, then those of the unassigned list. */
  lemma AssignShape(nodes: seq<Node>, root: nat, g: Grouping, meshes: seq<Mesh>, meshMeta: map<nat, MeshMetadata>)
    requires Ordered(nodes) && root < |nodes| && GroupsBelow(g.groups, |meshes|) && Below(g.unassigned, |meshes|)
    ensures Below(Flatten(g.groups) + g.unassigned, |meshes|)
    ensures var r := Assign(nodes, root, g, meshes, meshMeta);
            Grown(nodes, r) && LeavesFor(r, |nodes|, Flatten(g.groups) + g.unassigned, meshes, meshMeta)
            && (Tree(nodes) ==> Tree(r))
  {
    PlaceGroupsShape(nodes, root, g.groups, meshes, meshMeta);
    var placed := PlaceGroups(nodes, root, g.groups, meshes, meshMeta);
    var fl := Flatten(g.groups);
    BelowConcat(fl, g.unassigned, |meshes|);
    var r := Assign(nodes, root, g, meshes, meshMeta);
    if |g.unassigned| == 0 {
      assert fl + g.unassigned == fl;
    } else {
      var p := SemanticParent(placed, root);
      assert r == AttachAll(placed, p, g.unassigned, meshes, meshMeta);
      AttachAllGrown(placed, p, g.unassigned, meshes, meshMeta);
      if Tree(nodes) {
        AttachAllTree(placed, p, g.unassigned, meshes, meshMeta);
      }
      GrownTrans(nodes, placed, r);
      LeavesConcat(nodes, placed, r, fl, g.unassigned, meshes, meshMeta);
    }
  }

  /**
   * AssignMeshesToHierarchy gives every scene mesh exactly one new node: the
   * arena grows by one node per mesh, the old nodes keep their fields and
   * only gain children, the tree stays well-formed, and the references to
   * meshes grow by exactly the indices `0..n`, each once.
   */
  lemma AssignMeshesPlacesEachMeshOnce(nodes: seq<Node>, root: nat, meshes: seq<Mesh>, meshMeta: map<nat, MeshMetadata>, elementToStorey: map<nat, nat>)
    requires Ordered(nodes) && root < |nodes| && |meshes| > 0
    ensures var r := AssignMeshes(nodes, root, meshes, meshMeta, elementToStorey);
            Grown(nodes, r) && |r| == |nodes| + |meshes|
            && multiset(MeshRefs(r)) == multiset(MeshRefs(nodes)) + multiset(Range(|meshes|))
            && (Tree(nodes) ==> Tree(r))
  {
    var g := Group(meshMeta, elementToStorey, |meshes|);
    GroupBelow(meshMeta, elementToStorey, |meshes|);
    GroupPartition(meshMeta, elementToStorey, |meshes|);
    AssignShape(nodes, root, g, meshes, meshMeta);
    var r := AssignMeshes(nodes, root, meshes, meshMeta, elementToStorey);
    var all := Flatten(g.groups) + g.unassigned;
    PlacedMeshRefs(nodes, r, all, meshes, meshMeta);
    RangeLength(|meshes|);
    assert |all| == |multiset(all)| == |multiset(Range(|meshes|))| == |meshes|;
  }

  lemma {:induction false} RangeLength(n: nat)
    ensures |Range(n)| == n
  {
    if n > 0 {
      RangeLength(n - 1);
    }
  }

  /** Each index below `n` occurs in `0..n` exactly once. */
  lemma {:induction false} RangeOnce(n: nat, i: nat)
    ensures multiset(Range(n))[i] == if i < n then 1 else 0
  {
    if n > 0 {
      var last: nat := n - 1;
      RangeOnce(last, i);
      assert Range(n) == Range(last) + [last];
      assert multiset(Range(n)) == multiset(Range(last)) + multiset{last};
    }
  }

  /** The grouping's storey lists only hold meshes of their storey, and its unassigned list only meshes without one. */
  lemma GroupStoreys(meshMeta: map<nat, MeshMetadata>, elementToStorey: map<nat, nat>, n: nat)
    ensures var g := Group(meshMeta, elementToStorey, n);
            KeyConsistent(g.groups, meshMeta, elementToStorey)
            && forall k :: 0 <= k < |g.unassigned| ==> TargetStorey(meshMeta, elementToStorey, g.unassigned[k]).None?
  {
    GroupValid(meshMeta, elementToStorey, n);
  }

  /** Placing the unassigned meshes only grows the tree the storey groups left. */
  lemma UnassignedGrown(nodes: seq<Node>, root: nat, g: Grouping, meshes: seq<Mesh>, meshMeta: map<nat, MeshMetadata>)
    requires Ordered(nodes) && root < |nodes| && GroupsBelow(g.groups, |meshes|) && Below(g.unassigned, |meshes|)
    ensures Grown(PlaceGroups(nodes, root, g.groups, meshes, meshMeta), Assign(nodes, root, g, meshes, meshMeta))
  {
    var placed := PlaceGroups(nodes, root, g.groups, meshes, meshMeta);
    if |g.unassigned| > 0 {
      AttachAllGrown(placed, SemanticParent(placed, root), g.unassigned, meshes, meshMeta);
    } else {
      assert forall k :: 0 <= k < |placed| ==> placed[k].children <= placed[k].children;
    }
  }

  /** The leaves of the unassigned list hang under the semantic parent of the tree the storey groups left. */
  lemma UnassignedParents(nodes: seq<Node>, root: nat, g: Grouping, meshes: seq<Mesh>, meshMeta: map<nat, MeshMetadata>)
    requires Ordered(nodes) && root < |nodes| && GroupsBelow(g.groups, |meshes|) && Below(g.unassigned, |meshes|)
    ensures var placed := PlaceGroups(nodes, root, g.groups, meshes, meshMeta);
            var r := Assign(nodes, root, g, meshes, meshMeta);
            |r| == |placed| + |g.unassigned|
            && forall k :: 0 <= k < |g.unassigned| ==>
              r[|placed| + k] == MeshLeaf(meshes, meshMeta, g.unassigned[k], SemanticParent(placed, root))
  {
    var placed := PlaceGroups(nodes, root, g.groups, meshes, meshMeta);
    if |g.unassigned| > 0 {
      var p := SemanticParent(placed, root);
      assert Assign(nodes, root, g, meshes, meshMeta) == AttachAll(placed, p, g.unassigned, meshes, meshMeta);
      AttachAllLeaves(placed, p, g.unassigned, meshes, meshMeta);
    }
  }

  /** The leaves of the storey lists keep their parents once the unassigned meshes are placed. */
  lemma AssignStoreyParents(nodes: seq<Node>, root: nat, g: Grouping, meshes: seq<Mesh>,
                            meshMeta: map<nat, MeshMetadata>, elementToStorey: map<nat, nat>)
    requires Ordered(nodes) && root < |nodes| && GroupsBelow(g.groups, |meshes|) && Below(g.unassigned, |meshes|)
    requires KeyConsistent(g.groups, meshMeta, elementToStorey)
    ensures var r := Assign(nodes, root, g, meshes, meshMeta);
            var fl := Flatten(g.groups);
            forall k :: 0 <= k < |fl| ==> StoreyParent(r, |nodes|, k, root, meshMeta, elementToStorey, fl[k])
  {
    PlaceGroupsParents(nodes, root, g.groups, meshes, meshMeta, elementToStorey);
    assert forall k :: 0 <= k < |Flatten(g.groups)| ==> StoreyParent(PlaceGroups(nodes, root, g.groups, meshes, meshMeta), |nodes|, k, root, meshMeta, elementToStorey, Flatten(g.groups)[k]);
    UnassignedGrown(nodes, root, g, meshes, meshMeta);
    var placed := PlaceGroups(nodes, root, g.groups, meshes, meshMeta);
    var r := Assign(nodes, root, g, meshes, meshMeta);
    var fl := Flatten(g.groups);
    forall k | 0 <= k < |fl|
      ensures StoreyParent(r, |nodes|, k, root, meshMeta, elementToStorey, fl[k])
    {
      assert StoreyParent(placed, |nodes|, k, root, meshMeta, elementToStorey, fl[k]);
      StoreyParentGrown(placed, r, |nodes|, k, root, meshMeta, elementToStorey, fl[k]);
    }
  }

  /**
   * Where each leaf hangs: a mesh with a storey under the root or under a
   * node passing the storey test for that storey; a mesh without one under
   * the semantic parent of the tree as the storey groups left it.
   */
  lemma AssignMeshesParents(nodes: seq<Node>, root: nat, meshes: seq<Mesh>, meshMeta: map<nat, MeshMetadata>, elementToStorey: map<nat, nat>)
    requires Ordered(nodes) && root < |nodes| && |meshes| > 0
    ensures var g := Group(meshMeta, elementToStorey, |meshes|);
            var r := AssignMeshes(nodes, root, meshes, meshMeta, elementToStorey);
            var fl := Flatten(g.groups);
            |r| == |nodes| + |fl| + |g.unassigned|
            && (forall k :: 0 <= k < |fl| ==> StoreyParent(r, |nodes|, k, root, meshMeta, elementToStorey, fl[k]))
            && (GroupBelow(meshMeta, elementToStorey, |meshes|);
                forall k :: 0 <= k < |g.unassigned| ==>
                  TargetStorey(meshMeta, elementToStorey, g.unassigned[k]).None?
                  && r[|nodes| + |fl| + k].parent == Some(SemanticParent(PlaceGroups(nodes, root, g.groups, meshes, meshMeta), root)))
  {
    var g := Group(meshMeta, elementToStorey, |meshes|);
    GroupStoreys(meshMeta, elementToStorey, |meshes|);
    GroupBelow(meshMeta, elementToStorey, |meshes|);
    var r := AssignMeshes(nodes, root, meshes, meshMeta, elementToStorey);
    assert r == Assign(nodes, root, g, meshes, meshMeta);
    AssignStoreyParents(nodes, root, g, meshes, meshMeta, elementToStorey);
    UnassignedParents(nodes, root, g, meshes, meshMeta);
  }
}
