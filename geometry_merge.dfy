/**
 * Merging an element's placed geometries into one vertex and face list, the
 * part CreateMeshFromFlatMesh and CreateSplitMeshesFromFlatMesh share, and
 * the single mesh CreateMeshFromFlatMesh builds from the result.
 */
module MeshMerge {
  import opened Common
  import opened SceneTypes
  import opened Materials
  import opened ColorMaterials

  /**
   * One IfcPlacedGeometry with its Web-IFC buffers read: the vertex
   * positions (already transformed), the triangles of its index buffer
   * (relative to its own vertices) and its colour.
   */
  datatype PlacedGeometry = PlacedGeometry(vertices: seq<Vec3>, triangles: seq<Face>, color: Rgba)

  predicate FaceWithin(fc: Face, n: nat) {
    fc.i0 < n && fc.i1 < n && fc.i2 < n
  }

  predicate FacesWithin(fs: seq<Face>, n: nat) {
    forall i :: 0 <= i < |fs| ==> FaceWithin(fs[i], n)
  }

  /** Web-IFC's index buffer only refers to the geometry's own vertices. */
  predicate GeometryWellFormed(g: PlacedGeometry) {
    FacesWithin(g.triangles, |g.vertices|)
  }

  /** A triangle moved to follow `d` vertices already collected. */
  function Offset(fc: Face, d: nat): (r: Face)
    ensures forall c :: 0 <= c < 3 ==> r.Corner(c) == fc.Corner(c) + d
  {
    Face(fc.i0 + d, fc.i1 + d, fc.i2 + d)
  }

  function OffsetAll(ts: seq<Face>, d: nat): (r: seq<Face>)
    ensures |r| == |ts|
    ensures forall i :: 0 <= i < |ts| ==> r[i] == Offset(ts[i], d)
  {
    if |ts| == 0 then [] else OffsetAll(ts[..|ts| - 1], d) + [Offset(ts[|ts| - 1], d)]
  }

  /** `n` copies of the material index of one geometry, one per face. */
  function Repeat(x: nat, n: nat): (r: seq<nat>)
    ensures |r| == n
    ensures forall i :: 0 <= i < n ==> r[i] == x
  {
    if n == 0 then [] else Repeat(x, n - 1) + [x]
  }

  /**
   * The IFC material of an element: the first material relMaterials pairs
   * with it, when the material pass gave that material a slot. The slot is
   * always one the pass handed out, so it lies wherever those slots lie.
   */
  function IfcMaterialSlot(rel: map<nat, seq<(nat, nat)>>, idToIndex: map<nat, nat>, id: nat): (r: Option<nat>)
    ensures r.Some? <==> id in rel && |rel[id]| > 0 && rel[id][0].0 in idToIndex
    ensures r.Some? ==> r.value == idToIndex[rel[id][0].0]
    ensures r.Some? ==> r.value in idToIndex.Values
  {
    if id in rel && |rel[id]| > 0 && rel[id][0].0 in idToIndex then Some(idToIndex[rel[id][0].0]) else None
  }

  /** The collected vertices, faces and per-face material indices, with the scene materials and colour cache. */
  datatype Merged = Merged(vertices: seq<Vec3>, faces: seq<Face>, faceMaterials: seq<nat>,
                           materials: seq<Material>, cache: map<string, nat>)

  function EmptyMerge(materials: seq<Material>, cache: map<string, nat>): Merged {
    Merged([], [], [], materials, cache)
  }

  /** The material slot of one geometry: the IFC material if any, otherwise its colour's slot. */
  function GeometrySlot(m: Merged, g: PlacedGeometry, ifcSlot: Option<nat>): ColorSlotResult {
    match ifcSlot
    case Some(i) => ColorSlotResult(m.materials, m.cache, i)
    case None => ColorSlot(m.materials, m.cache, g.color)
  }

  /** CreateMeshFromFlatMesh skips a geometry with an empty buffer; the split path does not. */
  predicate Skipped(g: PlacedGeometry, skipEmpty: bool) {
    skipEmpty && (|g.vertices| == 0 || |g.triangles| == 0)
  }

  function MergeStep(m: Merged, g: PlacedGeometry, ifcSlot: Option<nat>, skipEmpty: bool): Merged {
    if Skipped(g, skipEmpty) then m
    else
      var s := GeometrySlot(m, g, ifcSlot);
      Merged(m.vertices + g.vertices, m.faces + OffsetAll(g.triangles, |m.vertices|),
             m.faceMaterials + Repeat(s.index, |g.triangles|), s.materials, s.cache)
  }

  function MergeAll(m: Merged, gs: seq<PlacedGeometry>, ifcSlot: Option<nat>, skipEmpty: bool): Merged {
    if |gs| == 0 then m
    else MergeStep(MergeAll(m, gs[..|gs| - 1], ifcSlot, skipEmpty), gs[|gs| - 1], ifcSlot, skipEmpty)
  }

  /** What a merge keeps true: one material per face, faces within the vertices, materials within the scene's, a valid cache. */
  predicate MergeValid(m: Merged) {
    |m.faceMaterials| == |m.faces|
    && FacesWithin(m.faces, |m.vertices|)
    && (forall i :: 0 <= i < |m.faceMaterials| ==> m.faceMaterials[i] < |m.materials|)
    && CacheValid(m.materials, m.cache)
  }

  /**
   * One merge step keeps the merge valid, only extends the vertices, faces
   * and materials, and every triangle of the geometry lands on the same
   * positions it had in the geometry, with the geometry's material.
   */
  lemma MergeStepValid(m: Merged, g: PlacedGeometry, ifcSlot: Option<nat>, skipEmpty: bool)
    requires MergeValid(m) && GeometryWellFormed(g)
    requires ifcSlot.Some? ==> ifcSlot.value < |m.materials|
    ensures var r := MergeStep(m, g, ifcSlot, skipEmpty);
            MergeValid(r) && m.vertices <= r.vertices && m.faces <= r.faces
            && m.faceMaterials <= r.faceMaterials && m.materials <= r.materials
            && (forall k :: k in m.cache ==> k in r.cache && r.cache[k] == m.cache[k])
    ensures var r := MergeStep(m, g, ifcSlot, skipEmpty);
            !Skipped(g, skipEmpty) ==>
              |r.faces| == |m.faces| + |g.triangles|
              && forall i, c :: 0 <= i < |g.triangles| && 0 <= c < 3 ==>
                   r.vertices[r.faces[|m.faces| + i].Corner(c)] == g.vertices[g.triangles[i].Corner(c)]
                   && r.faceMaterials[|m.faces| + i] == GeometrySlot(m, g, ifcSlot).index
  {
    if !Skipped(g, skipEmpty) {
      if ifcSlot.None? {
        ColorSlotValid(m.materials, m.cache, g.color);
      }
      AppendedFacesWithin(m.faces, m.vertices, g);
      var r := MergeStep(m, g, ifcSlot, skipEmpty);
      AppendedCorners(m.faces, m.vertices, g, r.faces, r.vertices);
    }
  }

  /** Appending a geometry's offset triangles keeps every face within the grown vertex list. */
  lemma AppendedFacesWithin(faces: seq<Face>, vs: seq<Vec3>, g: PlacedGeometry)
    requires FacesWithin(faces, |vs|) && GeometryWellFormed(g)
    ensures FacesWithin(faces + OffsetAll(g.triangles, |vs|), |vs + g.vertices|)
  {
    var off := OffsetAll(g.triangles, |vs|);
    var all := faces + off;
    forall i | 0 <= i < |all|
      ensures FaceWithin(all[i], |vs + g.vertices|)
    {
      if i >= |faces| {
        assert all[i] == off[i - |faces|];
      } else {
        assert all[i] == faces[i];
      }
    }
  }

  /** Each appended triangle points at the same positions it had in its geometry. */
  lemma AppendedCorners(faces: seq<Face>, vs: seq<Vec3>, g: PlacedGeometry, nf: seq<Face>, nv: seq<Vec3>)
    requires GeometryWellFormed(g)
    requires nf == faces + OffsetAll(g.triangles, |vs|) && nv == vs + g.vertices
    ensures forall i, c :: 0 <= i < |g.triangles| && 0 <= c < 3 ==>
              nv[nf[|faces| + i].Corner(c)] == g.vertices[g.triangles[i].Corner(c)]
  {
    forall i, c | 0 <= i < |g.triangles| && 0 <= c < 3
      ensures nv[nf[|faces| + i].Corner(c)] == g.vertices[g.triangles[i].Corner(c)]
    {
      AppendedCorner(faces, vs, g, nf, nv, i, c);
    }
  }

  lemma AppendedCorner(faces: seq<Face>, vs: seq<Vec3>, g: PlacedGeometry, nf: seq<Face>, nv: seq<Vec3>, i: nat, c: nat)
    requires GeometryWellFormed(g) && i < |g.triangles| && c < 3
    requires nf == faces + OffsetAll(g.triangles, |vs|) && nv == vs + g.vertices
    ensures nv[nf[|faces| + i].Corner(c)] == g.vertices[g.triangles[i].Corner(c)]
  {
    var fc := g.triangles[i];
    var k := fc.Corner(c);
    assert FaceWithin(fc, |g.vertices|);
    assert nf[|faces| + i] == Offset(fc, |vs|);
    assert nv[|vs| + k] == g.vertices[k];
  }

  /** The whole merge keeps the merge valid and only extends what it started with. */
  lemma {:induction false} MergeAllValid(m: Merged, gs: seq<PlacedGeometry>, ifcSlot: Option<nat>, skipEmpty: bool)
    requires MergeValid(m)
    requires forall j :: 0 <= j < |gs| ==> GeometryWellFormed(gs[j])
    requires ifcSlot.Some? ==> ifcSlot.value < |m.materials|
    ensures var r := MergeAll(m, gs, ifcSlot, skipEmpty);
            MergeValid(r) && m.vertices <= r.vertices && m.faces <= r.faces && m.materials <= r.materials
            && (forall k :: k in m.cache ==> k in r.cache && r.cache[k] == m.cache[k])
    decreases |gs|
  {
    if |gs| > 0 {
      var init := gs[..|gs| - 1];
      MergeAllValid(m, init, ifcSlot, skipEmpty);
      MergeStepValid(MergeAll(m, init, ifcSlot, skipEmpty), gs[|gs| - 1], ifcSlot, skipEmpty);
    }
  }

  /** Without skipping, every geometry contributes all of its triangles. */
  lemma {:induction false} MergeAllFaceCount(m: Merged, gs: seq<PlacedGeometry>, ifcSlot: Option<nat>, n: nat)
    requires n == |m.faces| + TriangleCount(gs)
    ensures |MergeAll(m, gs, ifcSlot, false).faces| == n
    decreases |gs|
  {
    if |gs| > 0 {
      MergeAllFaceCount(m, gs[..|gs| - 1], ifcSlot, |m.faces| + TriangleCount(gs[..|gs| - 1]));
    }
  }

  function TriangleCount(gs: seq<PlacedGeometry>): nat {
    if |gs| == 0 then 0 else TriangleCount(gs[..|gs| - 1]) + |gs[|gs| - 1].triangles|
  }

  /**
   * The loop of CreateMeshFromFlatMesh and CreateSplitMeshesFromFlatMesh
   * over the placed geometries.
   */
  method MergeGeometries(scene: Scene, id: nat, gs: seq<PlacedGeometry>, rel: map<nat, seq<(nat, nat)>>,
                         idToIndex: map<nat, nat>, cache: map<string, nat>, skipEmpty: bool)
    returns (vertices: seq<Vec3>, faces: seq<Face>, faceMaterials: seq<nat>, cache': map<string, nat>)
    modifies scene
    ensures Merged(vertices, faces, faceMaterials, scene.materials, cache')
         == MergeAll(EmptyMerge(old(scene.materials), cache), gs, IfcMaterialSlot(rel, idToIndex, id), skipEmpty)
    ensures scene.meshes == old(scene.meshes) && scene.nodes == old(scene.nodes) && scene.root == old(scene.root)
  {
    var m0 := EmptyMerge(scene.materials, cache);
    var ifcSlot := IfcMaterialSlot(rel, idToIndex, id);
    vertices, faces, faceMaterials, cache' := [], [], [], cache;
    for gi := 0 to |gs|
      invariant Merged(vertices, faces, faceMaterials, scene.materials, cache') == MergeAll(m0, gs[..gi], ifcSlot, skipEmpty)
      invariant scene.meshes == old(scene.meshes) && scene.nodes == old(scene.nodes) && scene.root == old(scene.root)
    {
      assert gs[..gi + 1][..gi] == gs[..gi];
      var g := gs[gi];
      if |g.vertices| == 0 || |g.triangles| == 0 {
        if skipEmpty {
          continue;
        }
      }
      vertices, faces, faceMaterials, cache' := AppendGeometry(scene, id, g, rel, idToIndex, vertices, faces, faceMaterials, cache', skipEmpty);
    }
    assert gs[..|gs|] == gs;
  }

  /**
   * One geometry of that loop: append its vertices, pick its material slot
   * (the element's IFC material, else a colour material) and append its
   * triangles moved by the vertex offset, one material index per face.
   */
  method AppendGeometry(scene: Scene, id: nat, g: PlacedGeometry, rel: map<nat, seq<(nat, nat)>>,
                        idToIndex: map<nat, nat>, vertices0: seq<Vec3>, faces0: seq<Face>, faceMaterials0: seq<nat>,
                        cache: map<string, nat>, skipEmpty: bool)
    returns (vertices: seq<Vec3>, faces: seq<Face>, faceMaterials: seq<nat>, cache': map<string, nat>)
    requires !Skipped(g, skipEmpty)
    modifies scene
    ensures Merged(vertices, faces, faceMaterials, scene.materials, cache')
         == MergeStep(Merged(vertices0, faces0, faceMaterials0, old(scene.materials), cache), g,
                      IfcMaterialSlot(rel, idToIndex, id), skipEmpty)
    ensures scene.meshes == old(scene.meshes) && scene.nodes == old(scene.nodes) && scene.root == old(scene.root)
  {
    cache' := cache;
    var vertexOffset := |vertices0|;
    vertices := AppendVertices(vertices0, g.vertices);
    var materialIndex: nat;
    var relSlot := IfcMaterialSlot(rel, idToIndex, id);
    if relSlot.Some? {
      materialIndex := relSlot.value;
    } else {
      materialIndex, cache' := GetOrCreateColorMaterial(scene, g.color, cache');
    }
    faces, faceMaterials := AppendTriangles(faces0, faceMaterials0, g.triangles, vertexOffset, materialIndex);
  }

  /** The vertex loop: every vertex of the geometry appended in order. */
  method AppendVertices(vertices0: seq<Vec3>, vs: seq<Vec3>) returns (vertices: seq<Vec3>)
    ensures vertices == vertices0 + vs
  {
    vertices := vertices0;
    for i := 0 to |vs|
      invariant vertices == vertices0 + vs[..i]
    {
      vertices := vertices + [vs[i]];
    }
    assert vs[..|vs|] == vs;
  }

  /** The face loop: every triangle moved by the vertex offset, each with the geometry's material. */
  method AppendTriangles(faces0: seq<Face>, faceMaterials0: seq<nat>, triangles: seq<Face>, vertexOffset: nat,
                         materialIndex: nat)
    returns (faces: seq<Face>, faceMaterials: seq<nat>)
    ensures faces == faces0 + OffsetAll(triangles, vertexOffset)
    ensures faceMaterials == faceMaterials0 + Repeat(materialIndex, |triangles|)
  {
    faces, faceMaterials := faces0, faceMaterials0;
    for i := 0 to |triangles|
      invariant faces == faces0 + OffsetAll(triangles[..i], vertexOffset)
      invariant faceMaterials == faceMaterials0 + Repeat(materialIndex, i)
    {
      assert triangles[..i + 1][..i] == triangles[..i];
      var t := triangles[i];
      faces := faces + [Face(vertexOffset + t.i0, vertexOffset + t.i1, vertexOffset + t.i2)];
      faceMaterials := faceMaterials + [materialIndex];
    }
    assert triangles[..|triangles|] == triangles;
  }

  /** `std::set(materialIndices).size() <= 1`. */
  predicate SingleMaterial(fm: seq<nat>) {
    |set i | 0 <= i < |fm| :: fm[i]| <= 1
  }

  /** A mesh holds one material exactly when every face has the first face's material. */
  lemma SingleMaterialIff(fm: seq<nat>)
    requires |fm| > 0
    ensures SingleMaterial(fm) <==> forall i :: 0 <= i < |fm| ==> fm[i] == fm[0]
  {
    var s := set i | 0 <= i < |fm| :: fm[i];
    assert fm[0] in s;
    if forall i :: 0 <= i < |fm| ==> fm[i] == fm[0] {
      assert s == {fm[0]};
    } else {
      var j :| 0 <= j < |fm| && fm[j] != fm[0];
      assert fm[j] in s;
      assert {fm[0], fm[j]} <= s;
      assert |{fm[0], fm[j]}| == 2;
      SubsetCard({fm[0], fm[j]}, s);
    }
  }

  lemma SubsetCard(a: set<nat>, b: set<nat>)
    requires a <= b
    ensures |a| <= |b|
  {
    assert b == a + (b - a);
  }

  const SplitMarker: string := "NeedsSplitting_"

  /**
   * The mesh CreateMeshFromFlatMesh returns for a merge: none when it has no
   * vertex or no face; otherwise unnamed with the common material, or, when
   * the faces carry several materials, marked for splitting and given the
   * first face's material.
   */
  function MeshFromMerged(id: nat, m: Merged): Option<Mesh> {
    if |m.vertices| == 0 || |m.faces| == 0 then None
    else
      var first := if |m.faceMaterials| > 0 then m.faceMaterials[0] else 0;
      if SingleMaterial(m.faceMaterials) then Some(Mesh("", m.vertices, m.faces, first))
      else Some(Mesh(SplitMarker + NatToString(id), m.vertices, m.faces, first))
  }

  predicate StartsWith(s: string, p: string) {
    |p| <= |s| && s[..|p|] == p
  }

  /**
   * The mesh from a valid merge has in-range faces and material, and is
   * marked for splitting exactly when two of its faces disagree on material.
   */
  lemma MeshFromMergedValid(id: nat, m: Merged)
    requires MergeValid(m)
    ensures var r := MeshFromMerged(id, m);
            r.Some? ==>
              FacesWithin(r.value.faces, |r.value.vertices|) && r.value.materialIndex < |m.materials|
              && r.value.vertices == m.vertices && r.value.faces == m.faces
              && (StartsWith(r.value.name, SplitMarker)
                  <==> exists i :: 0 <= i < |m.faceMaterials| && m.faceMaterials[i] != m.faceMaterials[0])
    ensures MeshFromMerged(id, m).None? <==> |m.vertices| == 0 || |m.faces| == 0
  {
    var r := MeshFromMerged(id, m);
    if r.Some? {
      SingleMaterialIff(m.faceMaterials);
      if !SingleMaterial(m.faceMaterials) {
        assert r.value.name[..|SplitMarker|] == SplitMarker;
      }
    }
  }

  /**
   * CreateMeshFromFlatMesh: no geometry gives no mesh; otherwise the merge,
   * skipping geometries with an empty buffer, and the mesh built from it.
   */
  method CreateMeshFromFlatMesh(scene: Scene, id: nat, gs: seq<PlacedGeometry>, rel: map<nat, seq<(nat, nat)>>,
                                idToIndex: map<nat, nat>, cache: map<string, nat>)
    returns (mesh: Option<Mesh>, cache': map<string, nat>)
    modifies scene
    ensures var m := MergeAll(EmptyMerge(old(scene.materials), cache), gs, IfcMaterialSlot(rel, idToIndex, id), true);
            mesh == MeshFromMerged(id, m) && scene.materials == m.materials && cache' == m.cache
    ensures scene.meshes == old(scene.meshes) && scene.nodes == old(scene.nodes) && scene.root == old(scene.root)
  {
    if |gs| == 0 {
      return None, cache;
    }
    var vertices, faces, faceMaterials;
    vertices, faces, faceMaterials, cache' := MergeGeometries(scene, id, gs, rel, idToIndex, cache, true);
    if |vertices| == 0 || |faces| == 0 {
      return None, cache';
    }
    var uniqueMaterials := set i | 0 <= i < |faceMaterials| :: faceMaterials[i];
    var materialIndex := if |faceMaterials| > 0 then faceMaterials[0] else 0;
    if |uniqueMaterials| <= 1 {
      mesh := Some(Mesh("", vertices, faces, materialIndex));
    } else {
      mesh := Some(Mesh("NeedsSplitting_" + NatToString(id), vertices, faces, materialIndex));
    }
  }
}
