/**
 * BuildIFCSpatialHierarchy, BuildSceneGraph and the order in which
 * LoadModelWithWebIFC runs the passes: the finished node tree is well formed
 * and references every scene mesh exactly once.
 */
module SceneGraph {
  import opened Common
  import opened ImporterCore
  import opened ElementNames
  import opened SceneTypes
  import opened SceneTree
  import opened SpatialHierarchy
  import opened MeshGrouping
  import opened MeshAssignment
  import opened MeshPlacement
  import opened Containment
  import opened Materials
  import opened GeometryExtraction

  /** The flat hierarchy used when the file has no IfcProject: the root holds the mesh indices `0..n`. */
  function FlatHierarchy(nodes: seq<Node>, root: nat, n: nat): seq<Node>
    requires root < |nodes|
  {
    if n == 0 then nodes else nodes[root := nodes[root].(meshes := Range(n))]
  }

  lemma {:induction false} MeshRefsOfMeshFree(nodes: seq<Node>)
    requires NoMeshes(nodes, 0, |nodes|)
    ensures MeshRefs(nodes) == []
    decreases |nodes|
  {
    if |nodes| > 0 {
      MeshRefsOfMeshFree(nodes[..|nodes| - 1]);
    }
  }

  /** With every other node mesh-free, the references are those of node `root`. */
  lemma {:induction false} MeshRefsOfOne(nodes: seq<Node>, root: nat)
    requires root < |nodes| && forall k :: 0 <= k < |nodes| && k != root ==> nodes[k].meshes == []
    ensures MeshRefs(nodes) == nodes[root].meshes
    decreases |nodes|
  {
    var init := nodes[..|nodes| - 1];
    if root == |nodes| - 1 {
      MeshRefsOfMeshFree(init);
    } else {
      MeshRefsOfOne(init, root);
    }
  }

  /** The flat hierarchy keeps the tree and, over a mesh-free arena, references each mesh index below `n` once. */
  lemma FlatHierarchyEachMeshOnce(nodes: seq<Node>, root: nat, n: nat, i: nat)
    requires root < |nodes| && NoMeshes(nodes, 0, |nodes|)
    ensures Tree(nodes) ==> Tree(FlatHierarchy(nodes, root, n))
    ensures multiset(MeshRefs(FlatHierarchy(nodes, root, n)))[i] == if i < n then 1 else 0
  {
    var r := FlatHierarchy(nodes, root, n);
    assert forall k :: 0 <= k < |r| ==> r[k].children == nodes[k].children && r[k].parent == nodes[k].parent;
    if n == 0 {
      MeshRefsOfMeshFree(nodes);
    } else {
      MeshRefsOfOne(r, root);
      RangeOnce(n, i);
    }
  }

  /** Over a mesh-free tree, the walk from the root of the flat hierarchy meets each mesh index below `n` once. */
  lemma FlatTreeMeshes(nodes: seq<Node>, root: nat, n: nat, i: nat)
    requires Tree(nodes) && root < |nodes| && NoMeshes(nodes, 0, |nodes|)
    ensures Tree(FlatHierarchy(nodes, root, n))
    ensures multiset(TreeMeshes(FlatHierarchy(nodes, root, n), root))[i] == if i < n then 1 else 0
  {
    FlatHierarchyEachMeshOnce(nodes, root, n, i);
    var r := FlatHierarchy(nodes, root, n);
    RangeOnce(n, i);
    assert Preorder(r, root)[0] == root;
    var h := if i < n then root else |r|;
    forall k | 0 <= k < |r|
      ensures multiset(r[k].meshes)[i] == if k == h then 1 else 0
    {
    }
    TreeMeshesCount(r, root, i, h);
  }

  /** Mesh assignment keeps the tree and, over an arena without meshes, references each mesh index once. */
  lemma AssignedEachMeshOnce(nodes: seq<Node>, root: nat, meshes: seq<Mesh>, meshMeta: map<nat, MeshMetadata>,
                             elementToStorey: map<nat, nat>, i: nat)
    requires Tree(nodes) && root < |nodes| && NoMeshes(nodes, 0, |nodes|)
    ensures var r := AssignMeshes(nodes, root, meshes, meshMeta, elementToStorey);
            Tree(r) && root < |r| && multiset(MeshRefs(r))[i] == if i < |meshes| then 1 else 0
  {
    MeshRefsOfMeshFree(nodes);
    if |meshes| > 0 {
      AssignMeshesPlacesEachMeshOnce(nodes, root, meshes, meshMeta, elementToStorey);
      RangeOnce(|meshes|, i);
    }
  }

  /** The loop filling the root's mesh array with `0..n`. */
  method AllMeshIndices(n: nat) returns (indices: seq<nat>)
    ensures indices == Range(n)
  {
    indices := [];
    for i := 0 to n
      invariant indices == Range(i)
    {
      indices := indices + [i];
    }
  }

  /** The branch without an IfcProject: with meshes, the root's mesh array becomes `0..n`. */
  method FlatFallback(scene: Scene)
    requires scene.root < |scene.nodes|
    modifies scene
    ensures scene.materials == old(scene.materials) && scene.meshes == old(scene.meshes) && scene.root == old(scene.root)
    ensures scene.nodes == FlatHierarchy(old(scene.nodes), scene.root, |scene.meshes|)
  {
    if |scene.meshes| > 0 {
      var indices := AllMeshIndices(|scene.meshes|);
      scene.nodes := scene.nodes[scene.root := scene.nodes[scene.root].(meshes := indices)];
    }
  }

  /**
   * BuildIFCSpatialHierarchy. Without an IfcProject line the root keeps its
   * place and receives every mesh; otherwise the first project becomes the
   * root of the spatial levels (`built` is the arena at that point) and the
   * meshes are assigned below it.
   */
  method BuildIFCSpatialHierarchy(imp: Importer, scene: Scene, f: IfcFile) returns (ghost built: seq<Node>)
    requires Tree(scene.nodes) && scene.root < |scene.nodes|
    modifies scene
    ensures scene.materials == old(scene.materials) && scene.meshes == old(scene.meshes)
    ensures TypedLines(f, IFCPROJECT) == [] ==>
              scene.root == old(scene.root) && scene.nodes == FlatHierarchy(old(scene.nodes), old(scene.root), |scene.meshes|)
    ensures TypedLines(f, IFCPROJECT) != [] ==>
              scene.root == |old(scene.nodes)| < |built|
              && built[..scene.root] == old(scene.nodes) && built[scene.root].parent == None
              && Shaped(built, scene.root, f, TypedLines(f, IFCPROJECT)[0], "IFC_Project", SpatialLevels)
              && Tree(built) && NoMeshes(built, scene.root, |built|)
              && scene.nodes == AssignMeshes(built, scene.root, scene.meshes, imp.meshToIFCMetadata, imp.elementToStoreyMap)
  {
    var projectIDs := CollectTypedLines(f, IFCPROJECT);
    if |projectIDs| == 0 {
      FlatFallback(scene);
      built := scene.nodes;
      return;
    }
    var projectID := projectIDs[0];
    var project := BuildProjectHierarchy(scene, f, projectID);
    built := scene.nodes;
    if |scene.meshes| > 0 {
      AssignMeshesToHierarchy(imp, scene, project);
    }
  }

  /** What BuildIFCSpatialHierarchy leaves: a well-formed tree referencing each mesh once when the arena had no meshes. */
  lemma HierarchyEachMeshOnce(before: seq<Node>, root: nat, built: seq<Node>, newRoot: nat, after: seq<Node>, f: IfcFile,
                              meshes: seq<Mesh>, meshMeta: map<nat, MeshMetadata>, elementToStorey: map<nat, nat>, i: nat)
    requires Tree(before) && root < |before|
    requires TypedLines(f, IFCPROJECT) == [] ==> newRoot == root && after == FlatHierarchy(before, root, |meshes|)
    requires TypedLines(f, IFCPROJECT) != [] ==>
               newRoot == |before| < |built| && built[..newRoot] == before
               && Tree(built) && NoMeshes(built, newRoot, |built|)
               && after == AssignMeshes(built, newRoot, meshes, meshMeta, elementToStorey)
    ensures Tree(after) && newRoot < |after|
    ensures NoMeshes(before, 0, |before|) ==> multiset(MeshRefs(after))[i] == if i < |meshes| then 1 else 0
    ensures NoMeshes(before, 0, |before|) ==> multiset(TreeMeshes(after, newRoot))[i] == if i < |meshes| then 1 else 0
  {
    if TypedLines(f, IFCPROJECT) == [] {
      if NoMeshes(before, 0, |before|) {
        FlatHierarchyEachMeshOnce(before, root, |meshes|, i);
        FlatTreeMeshes(before, root, |meshes|, i);
      } else {
        var r := FlatHierarchy(before, root, |meshes|);
        assert forall k :: 0 <= k < |r| ==> r[k].children == before[k].children && r[k].parent == before[k].parent;
      }
    } else {
      if NoMeshes(before, 0, |before|) {
        NoMeshesJoin(before, built, 0);
        AssignedEachMeshOnce(built, newRoot, meshes, meshMeta, elementToStorey, i);
        AssignedTreeMeshes(built, newRoot, meshes, meshMeta, elementToStorey, i);
      } else if |meshes| > 0 {
        AssignMeshesPlacesEachMeshOnce(built, newRoot, meshes, meshMeta, elementToStorey);
      }
    }
  }

  /** BuildSceneGraph: the spatial hierarchy, and with it the node tree of the scene. */
  method BuildSceneGraph(imp: Importer, scene: Scene, f: IfcFile)
    requires Tree(scene.nodes) && scene.root < |scene.nodes|
    modifies scene
    ensures scene.materials == old(scene.materials) && scene.meshes == old(scene.meshes)
    ensures Tree(scene.nodes) && scene.root < |scene.nodes|
    ensures NoMeshes(old(scene.nodes), 0, |old(scene.nodes)|) ==>
              forall i: nat :: multiset(MeshRefs(scene.nodes))[i] == if i < |scene.meshes| then 1 else 0
    ensures NoMeshes(old(scene.nodes), 0, |old(scene.nodes)|) ==>
              forall i: nat :: multiset(TreeMeshes(scene.nodes, scene.root))[i] == if i < |scene.meshes| then 1 else 0
  {
    ghost var before, root := scene.nodes, scene.root;
    ghost var built := BuildIFCSpatialHierarchy(imp, scene, f);
    forall i: nat
      ensures Tree(scene.nodes) && scene.root < |scene.nodes|
      ensures NoMeshes(before, 0, |before|) ==> multiset(MeshRefs(scene.nodes))[i] == if i < |scene.meshes| then 1 else 0
      ensures NoMeshes(before, 0, |before|) ==> multiset(TreeMeshes(scene.nodes, scene.root))[i] == if i < |scene.meshes| then 1 else 0
    {
      HierarchyEachMeshOnce(before, root, built, scene.root, scene.nodes, f, scene.meshes,
                            imp.meshToIFCMetadata, imp.elementToStoreyMap, i);
    }
    HierarchyEachMeshOnce(before, root, built, scene.root, scene.nodes, f, scene.meshes,
                          imp.meshToIFCMetadata, imp.elementToStoreyMap, 0);
  }

  /** The material table ExtractMaterials builds from scratch; its ids only point at existing slots. */
  function ExtractedTable(f: IfcFile, mds: seq<MaterialDefinition>, items: seq<(nat, seq<(nat, nat)>)>): (t: MaterialTable)
    ensures IdsInRange(t)
  {
    AuthoredInRange(f, MaterialTable([], map[]), mds);
    StyledItemsInRange(f, AddAllAuthored(f, MaterialTable([], map[]), mds), items);
    StyledItemsOutcome(f, AddAllAuthored(f, MaterialTable([], map[]), mds), items)
  }

  /** The extraction loop of ExtractGeometry run over the kept elements, starting from table `t`. */
  function Extracted(f: IfcFile, typeName: nat -> string, rel: map<nat, seq<(nat, nat)>>, t: MaterialTable,
                     cands: seq<Candidate>): Extraction
    requires IdsInRange(t) && CandidatesWellFormed(cands)
  {
    InitialValid(t.materials, t.idToIndex);
    CollectedWellFormed(cands);
    ExtractAll(f, typeName, rel, t.idToIndex, InitialExtraction(t.materials), Collected(cands))
  }

  /**
   * The passes of LoadModelWithWebIFC once the file is in Web-IFC: a scene
   * root named IFC_Scene, the containment map, the materials, the geometry,
   * then the scene graph.
   */
  method LoadModel(imp: Importer, scene: Scene, f: IfcFile, containments: seq<ContainmentRel>,
                   mds: seq<MaterialDefinition>, items: seq<(nat, seq<(nat, nat)>)>,
                   cands: seq<Candidate>, rel: map<nat, seq<(nat, nat)>>, typeName: nat -> string)
    requires CandidatesWellFormed(cands)
    modifies imp, scene
    ensures imp.elementToStoreyMap == ContainmentMap(containments)
    ensures var table := ExtractedTable(f, mds, items);
            var e := Extracted(f, typeName, rel, table, cands);
            imp.materialIDToIndex == table.idToIndex
            && SceneParts(scene.materials, scene.meshes) == Finish(e.materials, e.meshes, e.needsDefault)
            && imp.meshToIFCMetadata == e.metadata
    ensures Tree(scene.nodes) && scene.root < |scene.nodes|
    ensures forall i: nat :: multiset(MeshRefs(scene.nodes))[i] == if i < |scene.meshes| then 1 else 0
    ensures forall i: nat :: multiset(TreeMeshes(scene.nodes, scene.root))[i] == if i < |scene.meshes| then 1 else 0
  {
    scene.nodes := [NewNode("IFC_Scene")];
    scene.root := 0;
    imp.elementToStoreyMap := PopulateSpatialContainmentMap(containments);
    ExtractMaterials(imp, scene, f, true, mds, items);
    ghost var table := ExtractedTable(f, mds, items);
    assert MaterialTable(scene.materials, imp.materialIDToIndex) == table;
    ExtractGeometry(imp, scene, f, true, cands, rel, typeName);
    BuildSceneGraph(imp, scene, f);
  }
}
