/**
 * The Project -> Site -> Building -> Storey -> Space node tree that
 * BuildIFCSpatialHierarchy builds. Every level lists all lines of its type,
 * not only those the enclosing element contains, so every site receives every
 * building, every building every storey and every storey every space.
 */
module SpatialHierarchy {
  import opened Common
  import opened ImporterCore
  import opened ElementNames
  import opened SceneTypes
  import opened NodeNaming
  import opened SceneTree

  /** The lines of type `t` among `lines`, in order; lines whose type read throws are skipped. */
  function TypedAmong(f: IfcFile, lines: seq<nat>, t: nat): seq<nat> {
    if |lines| == 0 then []
    else
      TypedAmong(f, lines[..|lines| - 1], t)
      + (if LineType(f, lines[|lines| - 1]) == Some(t) then [lines[|lines| - 1]] else [])
  }

  /** The ids the scan over GetAllLines collects for type `t`. */
  function TypedLines(f: IfcFile, t: nat): seq<nat> {
    TypedAmong(f, f.lines, t)
  }

  /** A line is collected exactly when it is a line of the model whose type reads as `t`. */
  lemma {:induction false} TypedAmongIff(f: IfcFile, lines: seq<nat>, t: nat, x: nat)
    ensures x in TypedAmong(f, lines, t) <==> x in lines && LineType(f, x) == Some(t)
  {
    if |lines| > 0 {
      var init := lines[..|lines| - 1];
      TypedAmongIff(f, init, t, x);
      assert lines == init + [lines[|lines| - 1]];
    }
  }

  /** The scan over all lines, comparing each line's type with `t`. */
  method CollectTypedLines(f: IfcFile, t: nat) returns (ids: seq<nat>)
    ensures ids == TypedLines(f, t)
  {
    ids := [];
    var allLineIDs := f.lines;
    for i := 0 to |allLineIDs|
      invariant ids == TypedAmong(f, allLineIDs[..i], t)
    {
      assert allLineIDs[..i + 1][..i] == allLineIDs[..i];
      var elementType := LineType(f, allLineIDs[i]);
      if elementType.Some? && elementType.value == t {
        ids := ids + [allLineIDs[i]];
      }
    }
    assert allLineIDs[..|allLineIDs|] == allLineIDs;
  }

  /** One level below the project: the type its nodes have and their fallback name. */
  datatype Level = Level(ifcType: nat, fallbackName: string)

  const SpatialLevels: seq<Level> := [
    Level(IFCSITE, "IFC_Site"),
    Level(IFCBUILDING, "IFC_Building"),
    Level(IFCBUILDINGSTOREY, "IFC_BuildingStorey"),
    Level(IFCSPACE, "IFC_Space")
  ]

  /**
   * Node `n` stands for element `id`: it has that element's node name, no
   * meshes and no metadata, and below it hang the nodes `levels` prescribe.
   */
  predicate Shaped(nodes: seq<Node>, n: nat, f: IfcFile, id: nat, fallbackName: string, levels: seq<Level>)
    decreases |levels|, 1
  {
    n < |nodes|
    && nodes[n].name == NodeName(f, id, fallbackName)
    && nodes[n].meshes == [] && nodes[n].metadata == []
    && ShapedBelow(nodes, n, f, levels)
  }

  /**
   * The children of `n` are, in order, one node per line of the first
   * level's type, each a later node whose parent is `n` and which is shaped
   * by the remaining levels; with no level left, `n` has no children.
   */
  predicate ShapedBelow(nodes: seq<Node>, n: nat, f: IfcFile, levels: seq<Level>)
    decreases |levels|, 0
  {
    n < |nodes|
    && var cs := nodes[n].children;
       if |levels| == 0 then cs == []
       else
         var ids := TypedLines(f, levels[0].ifcType);
         |cs| == |ids|
         && forall j :: 0 <= j < |cs| ==>
              n < cs[j] < |nodes| && nodes[cs[j]].parent == Some(n)
              && Shaped(nodes, cs[j], f, ids[j], levels[0].fallbackName, levels[1..])
  }

  /**
   * Nodes `lo..hi` only have children inside `lo..hi`, each after its parent,
   * pointing back to it and listed once.
   */
  predicate LocalTree(nodes: seq<Node>, lo: nat, hi: nat) {
    lo <= hi <= |nodes|
    && (forall k, i :: lo <= k < hi && 0 <= i < |nodes[k].children| ==>
          k < nodes[k].children[i] < hi && nodes[nodes[k].children[i]].parent == Some(k))
    && (forall k, i, j :: lo <= k < hi && 0 <= i < j < |nodes[k].children| ==>
          nodes[k].children[i] != nodes[k].children[j])
  }

  /** No node in `lo..hi` holds a mesh. */
  predicate NoMeshes(nodes: seq<Node>, lo: nat, hi: nat) {
    lo <= hi <= |nodes| && forall k :: lo <= k < hi ==> nodes[k].meshes == []
  }

  lemma LocalTreeFrame(nodes: seq<Node>, nodes2: seq<Node>, lo: nat, hi: nat)
    requires LocalTree(nodes, lo, hi) && hi <= |nodes2|
    requires forall k :: lo <= k < hi ==> nodes2[k] == nodes[k]
    ensures LocalTree(nodes2, lo, hi)
  {
  }

  /** A well-formed arena grown by a local tree stays well-formed. */
  lemma TreeExtend(nodes: seq<Node>, lo: nat)
    requires lo <= |nodes| && Tree(nodes[..lo]) && LocalTree(nodes, lo, |nodes|)
    ensures Tree(nodes)
  {
    var old_ := nodes[..lo];
    assert forall k :: 0 <= k < lo ==> nodes[k] == old_[k];
  }

  /** Shapes only look at the node and the nodes after it. */
  lemma {:induction false} ShapedFrame(nodes: seq<Node>, nodes2: seq<Node>, n: nat, f: IfcFile, id: nat, fallbackName: string, levels: seq<Level>)
    requires Shaped(nodes, n, f, id, fallbackName, levels)
    requires |nodes| <= |nodes2| && forall k :: n <= k < |nodes| ==> nodes2[k] == nodes[k]
    ensures Shaped(nodes2, n, f, id, fallbackName, levels)
    decreases |levels|, 1
  {
    ShapedBelowFrame(nodes, nodes2, n, f, levels);
  }

  lemma {:induction false} ShapedBelowFrame(nodes: seq<Node>, nodes2: seq<Node>, n: nat, f: IfcFile, levels: seq<Level>)
    requires ShapedBelow(nodes, n, f, levels)
    requires |nodes| <= |nodes2| && forall k :: n <= k < |nodes| ==> nodes2[k] == nodes[k]
    ensures ShapedBelow(nodes2, n, f, levels)
    decreases |levels|, 0
  {
    if |levels| > 0 {
      var cs := nodes[n].children;
      var ids := TypedLines(f, levels[0].ifcType);
      forall j | 0 <= j < |cs|
        ensures Shaped(nodes2, cs[j], f, ids[j], levels[0].fallbackName, levels[1..])
      {
        ShapedFrame(nodes, nodes2, cs[j], f, ids[j], levels[0].fallbackName, levels[1..]);
      }
    }
  }

  /** The number of nodes a shaped node heads. */
  function ShapeCount(f: IfcFile, levels: seq<Level>): nat {
    if |levels| == 0 then 1
    else 1 + |TypedLines(f, levels[0].ifcType)| * ShapeCount(f, levels[1..])
  }

  lemma {:induction false} CountListUniform(nodes: seq<Node>, lo: nat, cs: seq<nat>, size: nat)
    requires Ordered(nodes) && Within(nodes, lo, cs)
    requires forall j :: 0 <= j < |cs| ==> Count(nodes, cs[j]) == size
    ensures CountList(nodes, lo, cs) == |cs| * size
  {
    if |cs| > 0 {
      CountListUniform(nodes, lo, cs[..|cs| - 1], size);
    }
  }

  /** CountNodesInHierarchy of a shaped node follows from the levels alone. */
  lemma {:induction false} CountShaped(nodes: seq<Node>, n: nat, f: IfcFile, levels: seq<Level>)
    requires Ordered(nodes) && ShapedBelow(nodes, n, f, levels)
    ensures Count(nodes, n) == ShapeCount(f, levels)
    decreases |levels|
  {
    var cs := nodes[n].children;
    if |levels| > 0 {
      var ids := TypedLines(f, levels[0].ifcType);
      forall j | 0 <= j < |cs|
        ensures Count(nodes, cs[j]) == ShapeCount(f, levels[1..])
      {
        CountShaped(nodes, cs[j], f, levels[1..]);
      }
      CountListUniform(nodes, n, cs, ShapeCount(f, levels[1..]));
    }
  }

  /**
   * The project's subtree holds 1 + S * (1 + B * (1 + T * (1 + P))) nodes for
   * S sites, B buildings, T storeys and P spaces in the model.
   */
  lemma HierarchyCount(nodes: seq<Node>, project: nat, f: IfcFile)
    requires Ordered(nodes) && ShapedBelow(nodes, project, f, SpatialLevels)
    ensures var s := |TypedLines(f, IFCSITE)|;
            var b := |TypedLines(f, IFCBUILDING)|;
            var t := |TypedLines(f, IFCBUILDINGSTOREY)|;
            var p := |TypedLines(f, IFCSPACE)|;
            Count(nodes, project) == 1 + s * (1 + b * (1 + t * (1 + p)))
  {
    CountShaped(nodes, project, f, SpatialLevels);
    SpatialShapeCount(f);
  }

  /** The node count of the four spatial levels below a project, level by level. */
  lemma SpatialShapeCount(f: IfcFile)
    ensures var s := |TypedLines(f, IFCSITE)|;
            var b := |TypedLines(f, IFCBUILDING)|;
            var t := |TypedLines(f, IFCBUILDINGSTOREY)|;
            var p := |TypedLines(f, IFCSPACE)|;
            ShapeCount(f, SpatialLevels) == 1 + s * (1 + b * (1 + t * (1 + p)))
  {
    var spaces := SpatialLevels[3..];
    var storeys := SpatialLevels[2..];
    var buildings := SpatialLevels[1..];
    assert spaces[1..] == [] && spaces[0].ifcType == IFCSPACE;
    assert storeys[1..] == spaces && storeys[0].ifcType == IFCBUILDINGSTOREY;
    assert buildings[1..] == storeys && buildings[0].ifcType == IFCBUILDING;
    assert SpatialLevels[1..] == buildings && SpatialLevels[0].ifcType == IFCSITE;
    var s, b, t, p := |TypedLines(f, IFCSITE)|, |TypedLines(f, IFCBUILDING)|,
                      |TypedLines(f, IFCBUILDINGSTOREY)|, |TypedLines(f, IFCSPACE)|;
    assert ShapeCount(f, spaces) == 1 + p * ShapeCount(f, []) == 1 + p;
    assert ShapeCount(f, storeys) == 1 + t * ShapeCount(f, spaces);
    assert ShapeCount(f, buildings) == 1 + b * ShapeCount(f, storeys);
    assert ShapeCount(f, SpatialLevels) == 1 + s * ShapeCount(f, buildings);
  }

  /** The first `|childNodes|` children of a level are built: each is shaped and points back to `node`. */
  predicate ChildrenSoFar(nodes: seq<Node>, node: nat, childNodes: seq<nat>, ids: seq<nat>, f: IfcFile, level: Level, rest: seq<Level>) {
    |childNodes| <= |ids|
    && (forall a, b :: 0 <= a < b < |childNodes| ==> childNodes[a] < childNodes[b])
    && forall k :: 0 <= k < |childNodes| ==>
         node < childNodes[k] < |nodes| && nodes[childNodes[k]].parent == Some(node)
         && Shaped(nodes, childNodes[k], f, ids[k], level.fallbackName, rest)
  }

  /** One more child subtree appended after the built ones keeps them all as they were. */
  lemma GrowChildren(before: seq<Node>, after: seq<Node>, node: nat, childNodes: seq<nat>, child: nat,
                     ids: seq<nat>, f: IfcFile, level: Level, rest: seq<Level>)
    requires ChildrenSoFar(before, node, childNodes, ids, f, level, rest) && |childNodes| < |ids|
    requires node < |before| && LocalTree(before, node + 1, |before|)
    requires child == |before| < |after| && after[..child] == before
    requires after[child].parent == Some(node)
    requires Shaped(after, child, f, ids[|childNodes|], level.fallbackName, rest)
    requires LocalTree(after, child, |after|)
    ensures ChildrenSoFar(after, node, childNodes + [child], ids, f, level, rest)
    ensures LocalTree(after, node + 1, |after|)
    ensures after[..node + 1] == before[..node + 1]
  {
    assert forall k :: 0 <= k < |before| ==> after[k] == before[k] by {
      assert forall k :: 0 <= k < |before| ==> after[..child][k] == after[k];
    }
    forall k | 0 <= k < |childNodes|
      ensures Shaped(after, childNodes[k], f, ids[k], level.fallbackName, rest)
    {
      ShapedFrame(before, after, childNodes[k], f, ids[k], level.fallbackName, rest);
    }
    ChildrenSoFarStep(after, node, childNodes, child, ids, f, level, rest);
    LocalTreeFrame(before, after, node + 1, child);
    LocalTreeJoin(after, node + 1, child, |after|);
  }

  /** The next child, placed after the built ones and shaped, extends the built children. */
  lemma ChildrenSoFarStep(nodes: seq<Node>, node: nat, childNodes: seq<nat>, child: nat,
                          ids: seq<nat>, f: IfcFile, level: Level, rest: seq<Level>)
    requires |childNodes| < |ids| && node < child < |nodes| && nodes[child].parent == Some(node)
    requires forall a, b :: 0 <= a < b < |childNodes| ==> childNodes[a] < childNodes[b]
    requires forall k :: 0 <= k < |childNodes| ==>
               node < childNodes[k] < child && nodes[childNodes[k]].parent == Some(node)
               && Shaped(nodes, childNodes[k], f, ids[k], level.fallbackName, rest)
    requires Shaped(nodes, child, f, ids[|childNodes|], level.fallbackName, rest)
    ensures ChildrenSoFar(nodes, node, childNodes + [child], ids, f, level, rest)
  {
    var cs := childNodes + [child];
    forall a, b | 0 <= a < b < |cs|
      ensures cs[a] < cs[b]
    {
      assert cs[a] == childNodes[a];
    }
    forall k | 0 <= k < |cs|
      ensures node < cs[k] < |nodes| && nodes[cs[k]].parent == Some(node)
              && Shaped(nodes, cs[k], f, ids[k], level.fallbackName, rest)
    {
      if k < |childNodes| {
        assert cs[k] == childNodes[k];
      }
    }
  }

  /** Two adjacent local trees form one. */
  lemma LocalTreeJoin(nodes: seq<Node>, lo: nat, mid: nat, hi: nat)
    requires LocalTree(nodes, lo, mid) && LocalTree(nodes, mid, hi)
    ensures LocalTree(nodes, lo, hi)
  {
  }

  /** A mesh-free arena suffix followed by a mesh-free subtree is mesh-free. */
  lemma NoMeshesJoin(before: seq<Node>, after: seq<Node>, lo: nat)
    requires NoMeshes(before, lo, |before|) && |before| <= |after| && after[..|before|] == before
    requires NoMeshes(after, |before|, |after|)
    ensures NoMeshes(after, lo, |after|)
  {
    forall k | lo <= k < |before|
      ensures after[k].meshes == []
    {
      assert after[k] == after[..|before|][k];
    }
  }

  /** Assigning the built children to `node` completes its shape. */
  lemma AttachChildren(before: seq<Node>, node: nat, childNodes: seq<nat>, f: IfcFile, levels: seq<Level>)
    requires |levels| > 0 && node < |before| && before[node].children == []
    requires ChildrenSoFar(before, node, childNodes, TypedLines(f, levels[0].ifcType), f, levels[0], levels[1..])
    requires |childNodes| == |TypedLines(f, levels[0].ifcType)|
    requires LocalTree(before, node + 1, |before|)
    requires NoMeshes(before, node, |before|)
    ensures var after := before[node := before[node].(children := childNodes)];
            ShapedBelow(after, node, f, levels) && LocalTree(after, node, |after|) && NoMeshes(after, node, |after|)
  {
    var after := before[node := before[node].(children := childNodes)];
    var ids := TypedLines(f, levels[0].ifcType);
    forall k | 0 <= k < |childNodes|
      ensures Shaped(after, childNodes[k], f, ids[k], levels[0].fallbackName, levels[1..])
    {
      ShapedFrame(before, after, childNodes[k], f, ids[k], levels[0].fallbackName, levels[1..]);
    }
    LocalTreeFrame(before, after, node + 1, |after|);
  }

  /**
   * One node of the hierarchy: CreateNodeFromIFCElement, the parent link,
   * then the nodes of the levels below it.
   */
  method BuildLevel(scene: Scene, f: IfcFile, id: nat, fallbackName: string, parent: nat, levels: seq<Level>) returns (node: nat)
    modifies scene
    ensures node == |old(scene.nodes)| && node < |scene.nodes|
    ensures scene.nodes[..node] == old(scene.nodes)
    ensures scene.nodes[node].parent == Some(parent)
    ensures Shaped(scene.nodes, node, f, id, fallbackName, levels)
    ensures LocalTree(scene.nodes, node, |scene.nodes|) && NoMeshes(scene.nodes, node, |scene.nodes|)
    ensures scene.materials == old(scene.materials) && scene.meshes == old(scene.meshes) && scene.root == old(scene.root)
    decreases |levels|, 1
  {
    node := CreateNodeFromIFCElement(scene, f, id, fallbackName);
    scene.nodes := scene.nodes[node := scene.nodes[node].(parent := Some(parent))];
    BuildChildren(scene, f, node, levels);
  }

  /**
   * The loop of one level: a node per line of the level's type, each built
   * with its own levels below, then the child array, assigned only when the
   * level has lines.
   */
  method BuildChildren(scene: Scene, f: IfcFile, node: nat, levels: seq<Level>)
    requires node + 1 == |scene.nodes| && scene.nodes[node].children == [] && scene.nodes[node].meshes == []
    modifies scene
    ensures node < |scene.nodes|
    ensures scene.nodes[..node] == old(scene.nodes)[..node]
    ensures scene.nodes[node] == old(scene.nodes)[node].(children := scene.nodes[node].children)
    ensures ShapedBelow(scene.nodes, node, f, levels)
    ensures LocalTree(scene.nodes, node, |scene.nodes|) && NoMeshes(scene.nodes, node, |scene.nodes|)
    ensures scene.materials == old(scene.materials) && scene.meshes == old(scene.meshes) && scene.root == old(scene.root)
    decreases |levels|, 0
  {
    if |levels| == 0 {
      return;
    }
    var level := levels[0];
    var ids := CollectTypedLines(f, level.ifcType);
    var childNodes: seq<nat> := [];
    for j := 0 to |ids|
      invariant |childNodes| == j && node < |scene.nodes|
      invariant scene.nodes[..node + 1] == old(scene.nodes)
      invariant ChildrenSoFar(scene.nodes, node, childNodes, ids, f, level, levels[1..])
      invariant LocalTree(scene.nodes, node + 1, |scene.nodes|) && NoMeshes(scene.nodes, node, |scene.nodes|)
      invariant scene.materials == old(scene.materials) && scene.meshes == old(scene.meshes) && scene.root == old(scene.root)
    {
      ghost var before := scene.nodes;
      var child := BuildLevel(scene, f, ids[j], level.fallbackName, node, levels[1..]);
      GrowChildren(before, scene.nodes, node, childNodes, child, ids, f, level, levels[1..]);
      NoMeshesJoin(before, scene.nodes, node);
      childNodes := childNodes + [child];
    }
    ghost var before := scene.nodes;
    AttachChildren(before, node, childNodes, f, levels);
    if |childNodes| > 0 {
      scene.nodes := scene.nodes[node := scene.nodes[node].(children := childNodes)];
    } else {
      assert before[node := before[node].(children := childNodes)] == before;
    }
  }

  /**
   * The project branch of BuildIFCSpatialHierarchy up to mesh assignment:
   * the project node becomes the root (the old root stays in the arena,
   * unreachable), and the full level structure is built below it.
   */
  method BuildProjectHierarchy(scene: Scene, f: IfcFile, projectID: nat) returns (project: nat)
    requires Tree(scene.nodes)
    modifies scene
    ensures project == |old(scene.nodes)| && project < |scene.nodes| && scene.root == project
    ensures scene.nodes[..project] == old(scene.nodes)
    ensures scene.nodes[project].parent == None
    ensures Shaped(scene.nodes, project, f, projectID, "IFC_Project", SpatialLevels)
    ensures Tree(scene.nodes) && NoMeshes(scene.nodes, project, |scene.nodes|)
    ensures scene.materials == old(scene.materials) && scene.meshes == old(scene.meshes)
  {
    project := CreateNodeFromIFCElement(scene, f, projectID, "IFC_Project");
    scene.root := project;
    BuildChildren(scene, f, project, SpatialLevels);
    assert scene.nodes[..project] == old(scene.nodes);
    TreeExtend(scene.nodes, project);
  }
}
