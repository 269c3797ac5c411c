/**
 * The second pass of AssignMeshesToHierarchy: one leaf node per mesh, hung
 * under the node found for its storey (the root when none is found), and the
 * meshes without a storey under FindSemanticParentForUnassignedItems.
 */
module MeshAssignment {
  import opened Common
  import opened ImporterCore
  import opened SceneTypes
  import opened SceneTree
  import opened MeshGrouping

  predicate Below(idxs: seq<nat>, n: nat) {
    forall j :: 0 <= j < |idxs| ==> idxs[j] < n
  }

  predicate GroupsBelow(groups: seq<(nat, seq<nat>)>, n: nat) {
    forall a :: 0 <= a < |groups| ==> Below(groups[a].1, n)
  }

  /** The two metadata entries a mesh node gets when its mesh has a record. */
  function LeafMetadata(meshMeta: map<nat, MeshMetadata>, i: nat): seq<(string, MetaValue)> {
    if i in meshMeta then [("IFC.ExpressID", MetaUInt(meshMeta[i].expressID)), ("IFC.Type", MetaString(meshMeta[i].ifcType))]
    else []
  }

  /** The node made for mesh `i`: the mesh's name, the single mesh index, and its record as metadata. */
  function MeshLeaf(meshes: seq<Mesh>, meshMeta: map<nat, MeshMetadata>, i: nat, parent: nat): Node
    requires i < |meshes|
  {
    Node(meshes[i].name, Some(parent), [], [i], LeafMetadata(meshMeta, i))
  }

  /** A new node at the end of the arena, added as the last child of `target`. */
  function AppendChild(nodes: seq<Node>, target: nat, leaf: Node): seq<Node>
    requires target < |nodes|
  {
    nodes[target := nodes[target].(children := nodes[target].children + [|nodes|])] + [leaf]
  }

  lemma AppendChildOrdered(nodes: seq<Node>, target: nat, leaf: Node)
    requires Ordered(nodes) && target < |nodes| && leaf.children == []
    ensures Ordered(AppendChild(nodes, target, leaf))
  {
    var r := AppendChild(nodes, target, leaf);
    forall n, i | 0 <= n < |r| && 0 <= i < |r[n].children|
      ensures n < r[n].children[i] < |r|
    {
      if n < |nodes| && n != target {
        assert r[n] == nodes[n];
      } else if n == target && i < |nodes[target].children| {
        assert r[n].children[i] == nodes[target].children[i];
      }
    }
  }

  lemma AppendChildTree(nodes: seq<Node>, target: nat, leaf: Node)
    requires Tree(nodes) && target < |nodes| && leaf.children == [] && leaf.parent == Some(target)
    ensures Tree(AppendChild(nodes, target, leaf))
  {
    AppendChildOrdered(nodes, target, leaf);
    var r := AppendChild(nodes, target, leaf);
    forall n, i | 0 <= n < |r| && 0 <= i < |r[n].children|
      ensures r[r[n].children[i]].parent == Some(n)
    {
      if n < |nodes| && n != target {
        assert r[n] == nodes[n];
        assert r[nodes[n].children[i]].parent == nodes[nodes[n].children[i]].parent;
      } else if n == target && i < |nodes[target].children| {
        assert r[n].children[i] == nodes[target].children[i];
        assert r[nodes[target].children[i]].parent == nodes[nodes[target].children[i]].parent;
      }
    }
  }

  /** The leaves for `idxs`, one after the other, all under `target`. */
  function AttachAll(nodes: seq<Node>, target: nat, idxs: seq<nat>, meshes: seq<Mesh>, meshMeta: map<nat, MeshMetadata>): (r: seq<Node>)
    requires Ordered(nodes) && target < |nodes| && Below(idxs, |meshes|)
    ensures Ordered(r) && |r| == |nodes| + |idxs|
    decreases |idxs|
  {
    if |idxs| == 0 then nodes
    else
      var prev := AttachAll(nodes, target, idxs[..|idxs| - 1], meshes, meshMeta);
      var leaf := MeshLeaf(meshes, meshMeta, idxs[|idxs| - 1], target);
      AppendChildOrdered(prev, target, leaf);
      AppendChild(prev, target, leaf)
  }

  /** Where the meshes of storey `s` go: the first node passing the storey test, or the root. */
  function StoreyTarget(nodes: seq<Node>, root: nat, s: nat): (t: nat)
    requires Ordered(nodes) && root < |nodes|
    ensures t < |nodes| && (t == root || Matches(nodes[t].name, StoreyFor(s)))
  {
    match Find(nodes, root, StoreyFor(s))
    case Some(t) => t
    case None => root
  }

  /** The storey groups placed one after the other, each looking its storey up in the tree as it then is. */
  function PlaceGroups(nodes: seq<Node>, root: nat, groups: seq<(nat, seq<nat>)>, meshes: seq<Mesh>, meshMeta: map<nat, MeshMetadata>): (r: seq<Node>)
    requires Ordered(nodes) && root < |nodes| && GroupsBelow(groups, |meshes|)
    ensures Ordered(r) && |r| == |nodes| + |Flatten(groups)|
    decreases |groups|
  {
    if |groups| == 0 then nodes
    else
      var init := groups[..|groups| - 1];
      assert forall a :: 0 <= a < |init| ==> init[a] == groups[a];
      var prev := PlaceGroups(nodes, root, init, meshes, meshMeta);
      var (s, idxs) := groups[|groups| - 1];
      AttachAll(prev, StoreyTarget(prev, root, s), idxs, meshes, meshMeta)
  }

  /** The storey groups, then the unassigned meshes under the semantic parent of the tree as it then is. */
  function Assign(nodes: seq<Node>, root: nat, g: Grouping, meshes: seq<Mesh>, meshMeta: map<nat, MeshMetadata>): (r: seq<Node>)
    requires Ordered(nodes) && root < |nodes| && GroupsBelow(g.groups, |meshes|) && Below(g.unassigned, |meshes|)
    ensures Ordered(r) && |r| == |nodes| + |Flatten(g.groups)| + |g.unassigned|
  {
    var placed := PlaceGroups(nodes, root, g.groups, meshes, meshMeta);
    if |g.unassigned| == 0 then placed
    else AttachAll(placed, SemanticParent(placed, root), g.unassigned, meshes, meshMeta)
  }

  /** Every list of the grouping only holds scene meshes. */
  lemma GroupBelow(meshMeta: map<nat, MeshMetadata>, elementToStorey: map<nat, nat>, n: nat)
    ensures var g := Group(meshMeta, elementToStorey, n);
            GroupsBelow(g.groups, n) && Below(g.unassigned, n)
  {
    GroupValid(meshMeta, elementToStorey, n);
  }

  /** AssignMeshesToHierarchy on the node arena: nothing without meshes, otherwise group, then place. */
  function AssignMeshes(nodes: seq<Node>, root: nat, meshes: seq<Mesh>, meshMeta: map<nat, MeshMetadata>, elementToStorey: map<nat, nat>): (r: seq<Node>)
    requires Ordered(nodes) && root < |nodes|
    ensures Ordered(r)
  {
    if |meshes| == 0 then nodes
    else
      GroupBelow(meshMeta, elementToStorey, |meshes|);
      Assign(nodes, root, Group(meshMeta, elementToStorey, |meshes|), meshes, meshMeta)
  }

  /** One mesh node: created, filled from the mesh and its record, and appended to the target's children. */
  method AttachMesh(imp: Importer, scene: Scene, meshIndex: nat, target: nat)
    requires meshIndex < |scene.meshes| && target < |scene.nodes|
    modifies scene
    ensures scene.materials == old(scene.materials) && scene.meshes == old(scene.meshes) && scene.root == old(scene.root)
    ensures scene.nodes == AppendChild(old(scene.nodes), target, MeshLeaf(scene.meshes, imp.meshToIFCMetadata, meshIndex, target))
  {
    var meshName := scene.meshes[meshIndex].name;
    var metadata: seq<(string, MetaValue)> := [];
    if meshIndex in imp.meshToIFCMetadata {
      var ifcMeta := imp.meshToIFCMetadata[meshIndex];
      metadata := [("IFC.ExpressID", MetaUInt(ifcMeta.expressID)), ("IFC.Type", MetaString(ifcMeta.ifcType))];
    }
    var meshNode := Node(meshName, Some(target), [], [meshIndex], metadata);
    var newChildren := scene.nodes[target].children + [|scene.nodes|];
    scene.nodes := scene.nodes[target := scene.nodes[target].(children := newChildren)] + [meshNode];
  }

  /** The loop creating the mesh nodes of one list under one parent. */
  method AttachList(imp: Importer, scene: Scene, target: nat, meshIndices: seq<nat>)
    requires Ordered(scene.nodes) && target < |scene.nodes| && Below(meshIndices, |scene.meshes|)
    modifies scene
    ensures scene.materials == old(scene.materials) && scene.meshes == old(scene.meshes) && scene.root == old(scene.root)
    ensures scene.nodes == AttachAll(old(scene.nodes), target, meshIndices, scene.meshes, imp.meshToIFCMetadata)
  {
    for i := 0 to |meshIndices|
      invariant scene.materials == old(scene.materials) && scene.meshes == old(scene.meshes) && scene.root == old(scene.root)
      invariant scene.nodes == AttachAll(old(scene.nodes), target, meshIndices[..i], scene.meshes, imp.meshToIFCMetadata)
    {
      assert meshIndices[..i + 1][..i] == meshIndices[..i];
      AttachMesh(imp, scene, meshIndices[i], target);
    }
    assert meshIndices[..|meshIndices|] == meshIndices;
  }

  /** AssignMeshesToHierarchy. */
  method AssignMeshesToHierarchy(imp: Importer, scene: Scene, node: nat)
    requires Ordered(scene.nodes) && node < |scene.nodes|
    modifies scene
    ensures scene.materials == old(scene.materials) && scene.meshes == old(scene.meshes) && scene.root == old(scene.root)
    ensures scene.nodes == AssignMeshes(old(scene.nodes), node, scene.meshes, imp.meshToIFCMetadata, imp.elementToStoreyMap)
  {
    if |scene.meshes| == 0 {
      return;
    }
    var storeyToMeshes, unassignedMeshes := GroupMeshes(imp, |scene.meshes|);
    GroupBelow(imp.meshToIFCMetadata, imp.elementToStoreyMap, |scene.meshes|);
    for gi := 0 to |storeyToMeshes|
      invariant scene.materials == old(scene.materials) && scene.meshes == old(scene.meshes) && scene.root == old(scene.root)
      invariant GroupsBelow(storeyToMeshes[..gi], |scene.meshes|)
      invariant scene.nodes == PlaceGroups(old(scene.nodes), node, storeyToMeshes[..gi], scene.meshes, imp.meshToIFCMetadata)
    {
      assert storeyToMeshes[..gi + 1][..gi] == storeyToMeshes[..gi];
      var (storeyID, meshIndices) := storeyToMeshes[gi];
      var storeyNode := FindNode(scene, node, StoreyFor(storeyID));
      var target := node;
      if storeyNode.Some? {
        target := storeyNode.value;
      }
      AttachList(imp, scene, target, meshIndices);
    }
    assert storeyToMeshes[..|storeyToMeshes|] == storeyToMeshes;
    if |unassignedMeshes| > 0 {
      var fallbackParent := FindSemanticParentForUnassignedItems(scene, node);
      AttachList(imp, scene, fallbackParent, unassignedMeshes);
    }
  }
}
