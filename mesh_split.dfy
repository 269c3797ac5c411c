/**
 * SplitMeshByMaterials: one sub-mesh per material slot, each holding the
 * faces of that material and only the vertices those faces use, renumbered
 * in order of first use.
 *
 * materialToFaceIndices is an unordered_map; the model keeps its entries in
 * order of first insertion, which is one of the orders the map may yield.
 */
module MeshSplit {
  import opened Common
  import opened SceneTypes
  import opened ImporterCore
  import opened ElementNames
  import opened MeshMerge

  /** One entry of materialToFaceIndices: a material slot and the faces using it, in face order. */
  datatype Group = Group(material: nat, faceIndices: seq<nat>)

  /** The entry for `mat`, if there is one. */
  function FindGroup(gs: seq<Group>, mat: nat): (r: Option<nat>)
    ensures r.Some? ==> r.value < |gs| && gs[r.value].material == mat
    ensures r.None? ==> forall k :: 0 <= k < |gs| ==> gs[k].material != mat
    decreases |gs|
  {
    if |gs| == 0 then None
    else if gs[0].material == mat then Some(0)
    else match FindGroup(gs[1..], mat)
      case Some(k) => Some(k + 1)
      case None => None
  }

  /** `materialToFaceIndices[mat].push_back(i)`: the entry is created on first use. */
  function AddFace(gs: seq<Group>, mat: nat, i: nat): seq<Group> {
    match FindGroup(gs, mat)
    case Some(k) => gs[k := Group(mat, gs[k].faceIndices + [i])]
    case None => gs + [Group(mat, [i])]
  }

  /** The grouping loop over all face material indices. */
  function GroupFaces(fm: seq<nat>): seq<Group> {
    if |fm| == 0 then [] else AddFace(GroupFaces(fm[..|fm| - 1]), fm[|fm| - 1], |fm| - 1)
  }

  predicate Increasing(xs: seq<nat>) {
    forall a, b :: 0 <= a < b < |xs| ==> xs[a] < xs[b]
  }

  predicate DistinctMaterials(gs: seq<Group>) {
    forall a, b :: 0 <= a < b < |gs| ==> gs[a].material != gs[b].material
  }

  /**
   * `gs` groups the first `n` faces: one entry per material, each listing in
   * increasing order exactly the faces below `n` of its material.
   */
  predicate GroupsOf(gs: seq<Group>, fm: seq<nat>, n: nat)
    requires n <= |fm|
  {
    DistinctMaterials(gs)
    && (forall k :: 0 <= k < |gs| ==> |gs[k].faceIndices| > 0 && Increasing(gs[k].faceIndices))
    && (forall k, j :: 0 <= k < |gs| && 0 <= j < |gs[k].faceIndices| ==>
          gs[k].faceIndices[j] < n && fm[gs[k].faceIndices[j]] == gs[k].material)
    && (forall i :: 0 <= i < n ==> FindGroup(gs, fm[i]).Some? && i in gs[FindGroup(gs, fm[i]).value].faceIndices)
  }

  /** With distinct materials the entry of a material is the only one carrying it. */
  lemma FindGroupUnique(gs: seq<Group>, k: nat)
    requires DistinctMaterials(gs) && k < |gs|
    ensures FindGroup(gs, gs[k].material) == Some(k)
  {
    var r := FindGroup(gs, gs[k].material);
    assert r.Some?;
    var q := r.value;
    assert gs[q].material == gs[k].material;
  }

  /** Adding a face of a material that already has an entry. */
  lemma AddFaceExisting(gs: seq<Group>, fm: seq<nat>, n: nat, k: nat)
    requires n < |fm| && GroupsOf(gs, fm, n) && k < |gs| && gs[k].material == fm[n]
    ensures GroupsOf(gs[k := Group(fm[n], gs[k].faceIndices + [n])], fm, n + 1)
  {
    var gs' := gs[k := Group(fm[n], gs[k].faceIndices + [n])];
    assert forall q :: 0 <= q < |gs| ==> gs'[q].material == gs[q].material;
    assert DistinctMaterials(gs');
    forall i | 0 <= i < n + 1
      ensures FindGroup(gs', fm[i]).Some? && i in gs'[FindGroup(gs', fm[i]).value].faceIndices
    {
      var q := FindGroup(gs, fm[i]).value;
      FindGroupUnique(gs', q);
      if i < n {
        assert i in gs[q].faceIndices;
      } else {
        FindGroupUnique(gs, k);
      }
    }
  }

  /** Adding a face of a material seen for the first time. */
  lemma AddFaceNew(gs: seq<Group>, fm: seq<nat>, n: nat)
    requires n < |fm| && GroupsOf(gs, fm, n) && FindGroup(gs, fm[n]).None?
    ensures GroupsOf(gs + [Group(fm[n], [n])], fm, n + 1)
  {
    var gs' := gs + [Group(fm[n], [n])];
    assert DistinctMaterials(gs');
    forall i | 0 <= i < n + 1
      ensures FindGroup(gs', fm[i]).Some? && i in gs'[FindGroup(gs', fm[i]).value].faceIndices
    {
      if i < n {
        var q := FindGroup(gs, fm[i]).value;
        FindGroupUnique(gs', q);
        assert gs'[q] == gs[q];
      } else {
        FindGroupUnique(gs', |gs|);
      }
    }
  }

  lemma AddFaceValid(gs: seq<Group>, fm: seq<nat>, n: nat)
    requires n < |fm| && GroupsOf(gs, fm, n)
    ensures GroupsOf(AddFace(gs, fm[n], n), fm, n + 1)
  {
    match FindGroup(gs, fm[n])
    case Some(k) => AddFaceExisting(gs, fm, n, k);
    case None => AddFaceNew(gs, fm, n);
  }

  lemma {:induction false} GroupFacesValid(fm: seq<nat>, n: nat)
    requires n <= |fm|
    ensures GroupsOf(GroupFaces(fm[..n]), fm, n)
  {
    if n > 0 {
      GroupFacesValid(fm, n - 1);
      assert fm[..n][..n - 1] == fm[..n - 1];
      AddFaceValid(GroupFaces(fm[..n - 1]), fm, n - 1);
    }
  }

  /**
   * Every face lies in exactly one sub-mesh group, the one of its own
   * material; the groups' materials are distinct and each group lists only
   * faces of its material, in face order.
   */
  lemma GroupsPartitionFaces(fm: seq<nat>)
    ensures var gs := GroupFaces(fm);
            DistinctMaterials(gs)
            && (forall k, j :: 0 <= k < |gs| && 0 <= j < |gs[k].faceIndices| ==>
                  gs[k].faceIndices[j] < |fm| && fm[gs[k].faceIndices[j]] == gs[k].material)
            && (forall k :: 0 <= k < |gs| ==> Increasing(gs[k].faceIndices))
    ensures var gs := GroupFaces(fm);
            forall i, k :: 0 <= i < |fm| && 0 <= k < |gs| ==> (i in gs[k].faceIndices <==> gs[k].material == fm[i])
  {
    GroupFacesValid(fm, |fm|);
    assert fm[..|fm|] == fm;
    var gs := GroupFaces(fm);
    forall i, k | 0 <= i < |fm| && 0 <= k < |gs| && gs[k].material == fm[i]
      ensures i in gs[k].faceIndices
    {
      FindGroupUnique(gs, k);
    }
  }

  function FaceCorners(fc: Face): seq<nat> {
    [fc.i0, fc.i1, fc.i2]
  }

  predicate IndicesWithin(idx: seq<nat>, n: nat) {
    forall j :: 0 <= j < |idx| ==> idx[j] < n
  }

  /** The original vertex indices of the listed faces, three per face. */
  function Corners(faces: seq<Face>, idx: seq<nat>): (cs: seq<nat>)
    requires IndicesWithin(idx, |faces|)
    ensures |cs| == 3 * |idx|
    ensures forall j, c :: 0 <= j < |idx| && 0 <= c < 3 ==> cs[3 * j + c] == faces[idx[j]].Corner(c)
  {
    if |idx| == 0 then [] else Corners(faces, idx[..|idx| - 1]) + FaceCorners(faces[idx[|idx| - 1]])
  }

  lemma {:induction false} CornersWithin(faces: seq<Face>, idx: seq<nat>, n: nat)
    requires IndicesWithin(idx, |faces|) && FacesWithin(faces, n)
    ensures IndicesWithin(Corners(faces, idx), n)
  {
    if |idx| > 0 {
      CornersWithin(faces, idx[..|idx| - 1], n);
    }
  }

  /**
   * vertexRemapping, the sub-mesh's vertices (by the original index each was
   * copied from) and the renumbered corner indices produced so far.
   */
  datatype Remap = Remap(table: map<nat, nat>, origins: seq<nat>, newCorners: seq<nat>)

  /** One corner: reuse the vertex if already copied, otherwise copy it to the end. */
  function RemapStep(r: Remap, v: nat): Remap {
    if v in r.table then r.(newCorners := r.newCorners + [r.table[v]])
    else Remap(r.table[v := |r.origins|], r.origins + [v], r.newCorners + [|r.origins|])
  }

  function RemapAll(cs: seq<nat>): Remap {
    if |cs| == 0 then Remap(map[], [], []) else RemapStep(RemapAll(cs[..|cs| - 1]), cs[|cs| - 1])
  }

  /**
   * Each renumbered corner points at a copy of its original vertex, the
   * table and the copies agree both ways (so no vertex is copied twice), and
   * only vertices some corner uses are copied.
   */
  predicate RemapValid(r: Remap, cs: seq<nat>) {
    |r.newCorners| == |cs| && |r.origins| <= |cs|
    && (forall p :: 0 <= p < |cs| ==> r.newCorners[p] < |r.origins| && r.origins[r.newCorners[p]] == cs[p])
    && (forall k :: 0 <= k < |r.origins| ==> r.origins[k] in r.table && r.table[r.origins[k]] == k && r.origins[k] in cs)
    && (forall v :: v in r.table ==> r.table[v] < |r.origins| && r.origins[r.table[v]] == v)
  }

  lemma RemapStepValid(r: Remap, cs: seq<nat>, v: nat)
    requires RemapValid(r, cs)
    ensures RemapValid(RemapStep(r, v), cs + [v])
  {
    var r' := RemapStep(r, v);
    var cs' := cs + [v];
    forall k | 0 <= k < |r'.origins|
      ensures r'.origins[k] in cs'
    {
      if k < |r.origins| {
        assert r'.origins[k] == r.origins[k];
        assert r.origins[k] in cs;
      }
    }
    forall p | 0 <= p < |cs'|
      ensures r'.newCorners[p] < |r'.origins| && r'.origins[r'.newCorners[p]] == cs'[p]
    {
      if p < |cs| {
        assert r'.newCorners[p] == r.newCorners[p];
      }
    }
  }

  lemma {:induction false} RemapAllValid(cs: seq<nat>)
    ensures RemapValid(RemapAll(cs), cs)
  {
    if |cs| > 0 {
      var init := cs[..|cs| - 1];
      RemapAllValid(init);
      RemapStepValid(RemapAll(init), init, cs[|cs| - 1]);
      assert init + [cs[|cs| - 1]] == cs;
    }
  }

  /** The sub-mesh vertex copies. */
  function Gather(vs: seq<Vec3>, os: seq<nat>): (r: seq<Vec3>)
    requires IndicesWithin(os, |vs|)
    ensures |r| == |os|
    ensures forall k :: 0 <= k < |os| ==> r[k] == vs[os[k]]
  {
    if |os| == 0 then [] else Gather(vs, os[..|os| - 1]) + [vs[os[|os| - 1]]]
  }

  /** Renumbered corners, three to a face. */
  function Triangles(nc: seq<nat>): (r: seq<Face>)
    requires |nc| % 3 == 0
    ensures |r| == |nc| / 3
    ensures forall j :: 0 <= j < |r| ==> r[j] == Face(nc[3 * j], nc[3 * j + 1], nc[3 * j + 2])
  {
    if |nc| == 0 then []
    else Triangles(nc[..|nc| - 3]) + [Face(nc[|nc| - 3], nc[|nc| - 2], nc[|nc| - 1])]
  }

  /** `elementName + "_Mat" + index`, or `"Mesh " + id + "_Mat" + index` when the element has no name. */
  function SubMeshName(elementName: string, id: nat, mat: nat): string {
    if elementName != "" then elementName + "_Mat" + NatToString(mat)
    else "Mesh " + NatToString(id) + "_Mat" + NatToString(mat)
  }

  /** The sub-mesh of one group. */
  function SubMesh(name: string, vertices: seq<Vec3>, faces: seq<Face>, g: Group): Mesh
    requires FacesWithin(faces, |vertices|) && IndicesWithin(g.faceIndices, |faces|)
  {
    var cs := Corners(faces, g.faceIndices);
    RemapAllValid(cs);
    CornersWithin(faces, g.faceIndices, |vertices|);
    var r := RemapAll(cs);
    Mesh(name, Gather(vertices, r.origins), Triangles(r.newCorners), g.material)
  }

  lemma TriangleCorner(nc: seq<nat>, j: nat, c: nat)
    requires |nc| % 3 == 0 && j < |nc| / 3 && c < 3
    ensures j < |Triangles(nc)| && Triangles(nc)[j].Corner(c) == nc[3 * j + c]
  {
    var t := Triangles(nc)[j];
    assert t == Face(nc[3 * j], nc[3 * j + 1], nc[3 * j + 2]);
  }

  lemma CornerAt(faces: seq<Face>, idx: seq<nat>, j: nat, c: nat)
    requires IndicesWithin(idx, |faces|) && j < |idx| && c < 3
    ensures 3 * j + c < |Corners(faces, idx)| && Corners(faces, idx)[3 * j + c] == faces[idx[j]].Corner(c)
  {
  }

  /** The corner `c` of sub-face `j` is renumbered corner `3j + c`. */
  lemma SubMeshCorner(name: string, vertices: seq<Vec3>, faces: seq<Face>, g: Group, j: nat, c: nat)
    requires FacesWithin(faces, |vertices|) && IndicesWithin(g.faceIndices, |faces|)
    requires j < |g.faceIndices| && c < 3
    ensures var sub := SubMesh(name, vertices, faces, g);
            j < |sub.faces| && sub.faces[j].Corner(c) < |sub.vertices|
            && sub.vertices[sub.faces[j].Corner(c)] == vertices[faces[g.faceIndices[j]].Corner(c)]
  {
    var cs := Corners(faces, g.faceIndices);
    RemapAllValid(cs);
    CornersWithin(faces, g.faceIndices, |vertices|);
    var r := RemapAll(cs);
    var p := 3 * j + c;
    TriangleCorner(r.newCorners, j, c);
    CornerAt(faces, g.faceIndices, j, c);
    var gathered := Gather(vertices, r.origins);
    assert gathered[r.newCorners[p]] == vertices[r.origins[r.newCorners[p]]];
  }

  /**
   * A sub-mesh has the group's material, one face per grouped face and at
   * most three vertices per face; each corner of a sub-face is a copy of the
   * original corner's vertex.
   */
  lemma SubMeshGeometry(name: string, vertices: seq<Vec3>, faces: seq<Face>, g: Group)
    requires FacesWithin(faces, |vertices|) && IndicesWithin(g.faceIndices, |faces|)
    ensures var sub := SubMesh(name, vertices, faces, g);
            sub.name == name && sub.materialIndex == g.material
            && |sub.faces| == |g.faceIndices| && FacesWithin(sub.faces, |sub.vertices|)
            && |sub.vertices| <= 3 * |g.faceIndices|
            && forall j, c :: 0 <= j < |g.faceIndices| && 0 <= c < 3 ==>
                 sub.vertices[sub.faces[j].Corner(c)] == vertices[faces[g.faceIndices[j]].Corner(c)]
  {
    var cs := Corners(faces, g.faceIndices);
    RemapAllValid(cs);
    var sub := SubMesh(name, vertices, faces, g);
    forall j, c | 0 <= j < |g.faceIndices| && 0 <= c < 3
      ensures sub.faces[j].Corner(c) < |sub.vertices|
      ensures sub.vertices[sub.faces[j].Corner(c)] == vertices[faces[g.faceIndices[j]].Corner(c)]
    {
      SubMeshCorner(name, vertices, faces, g, j, c);
    }
    forall j | 0 <= j < |sub.faces|
      ensures FaceWithin(sub.faces[j], |sub.vertices|)
    {
      assert sub.faces[j].Corner(0) < |sub.vertices|;
      assert sub.faces[j].Corner(1) < |sub.vertices|;
      assert sub.faces[j].Corner(2) < |sub.vertices|;
    }
  }

  /** The sub-meshes SplitMeshByMaterials returns, in the order of their groups. */
  function SplitMeshes(f: IfcFile, id: nat, vertices: seq<Vec3>, faces: seq<Face>, faceMaterials: seq<nat>): (r: seq<Mesh>)
    requires |faceMaterials| == |faces| && FacesWithin(faces, |vertices|)
    ensures |r| == |GroupFaces(faceMaterials)|
  {
    var gs := GroupFaces(faceMaterials);
    GroupsPartitionFaces(faceMaterials);
    seq(|gs|, k requires 0 <= k < |gs| =>
      SubMesh(SubMeshName(GetIFCElementName(f, id), id, gs[k].material), vertices, faces, gs[k]))
  }

  /** A mesh the importer can hand to Assimp: an in-range material, at least one face, faces within its vertices. */
  predicate MeshValid(m: Mesh, materialCount: nat) {
    m.materialIndex < materialCount && |m.faces| > 0 && FacesWithin(m.faces, |m.vertices|)
  }

  /**
   * Splitting a valid mesh yields valid meshes, one per distinct material,
   * together holding every face exactly once: sub-mesh k takes the faces of
   * material k and copies their vertices.
   */
  lemma SplitMeshesValid(f: IfcFile, id: nat, vertices: seq<Vec3>, faces: seq<Face>, faceMaterials: seq<nat>, materialCount: nat)
    requires |faceMaterials| == |faces| && FacesWithin(faces, |vertices|)
    requires forall i :: 0 <= i < |faceMaterials| ==> faceMaterials[i] < materialCount
    ensures var r := SplitMeshes(f, id, vertices, faces, faceMaterials);
            var gs := GroupFaces(faceMaterials);
            (forall k :: 0 <= k < |r| ==> MeshValid(r[k], materialCount) && r[k].materialIndex == gs[k].material
                                           && |r[k].faces| == |gs[k].faceIndices|)
            && (forall a, b :: 0 <= a < b < |r| ==> r[a].materialIndex != r[b].materialIndex)
            && (forall i :: 0 <= i < |faces| ==> exists k :: 0 <= k < |r| && r[k].materialIndex == faceMaterials[i])
  {
    var r := SplitMeshes(f, id, vertices, faces, faceMaterials);
    var gs := GroupFaces(faceMaterials);
    GroupsPartitionFaces(faceMaterials);
    GroupFacesValid(faceMaterials, |faceMaterials|);
    assert faceMaterials[..|faceMaterials|] == faceMaterials;
    forall k | 0 <= k < |r|
      ensures MeshValid(r[k], materialCount) && r[k].materialIndex == gs[k].material && |r[k].faces| == |gs[k].faceIndices|
    {
      SubMeshGeometry(SubMeshName(GetIFCElementName(f, id), id, gs[k].material), vertices, faces, gs[k]);
      assert faceMaterials[gs[k].faceIndices[0]] == gs[k].material;
    }
    forall i | 0 <= i < |faces|
      ensures exists k :: 0 <= k < |r| && r[k].materialIndex == faceMaterials[i]
    {
      var k := FindGroup(gs, faceMaterials[i]).value;
      assert r[k].materialIndex == faceMaterials[i];
    }
  }

  /**
   * SplitMeshByMaterials: group the faces by material, then build one
   * sub-mesh per group.
   */
  method SplitMeshByMaterials(f: IfcFile, id: nat, vertices: seq<Vec3>, faces: seq<Face>, faceMaterials: seq<nat>)
    returns (splitMeshes: seq<Mesh>)
    requires |faceMaterials| == |faces| && FacesWithin(faces, |vertices|)
    ensures splitMeshes == SplitMeshes(f, id, vertices, faces, faceMaterials)
  {
    var materialToFaceIndices: seq<Group> := [];
    for i := 0 to |faceMaterials|
      invariant materialToFaceIndices == GroupFaces(faceMaterials[..i])
    {
      assert faceMaterials[..i + 1][..i] == faceMaterials[..i];
      materialToFaceIndices := AddFace(materialToFaceIndices, faceMaterials[i], i);
    }
    assert faceMaterials[..|faceMaterials|] == faceMaterials;
    GroupsPartitionFaces(faceMaterials);
    ghost var all := SplitMeshes(f, id, vertices, faces, faceMaterials);
    splitMeshes := [];
    for k := 0 to |materialToFaceIndices|
      invariant splitMeshes == all[..k]
    {
      var subMesh := BuildSubMesh(f, id, vertices, faces, materialToFaceIndices[k]);
      assert all[k] == subMesh;
      assert all[..k + 1] == all[..k] + [all[k]];
      splitMeshes := splitMeshes + [subMesh];
    }
    assert all[..|all|] == all;
  }

  lemma RemapAllSnoc(cs: seq<nat>, v: nat)
    ensures RemapAll(cs + [v]) == RemapStep(RemapAll(cs), v)
  {
    assert (cs + [v])[..|cs|] == cs;
  }

  lemma CornersSnoc(faces: seq<Face>, idx: seq<nat>, j: nat)
    requires IndicesWithin(idx, |faces|) && j < |idx|
    ensures Corners(faces, idx[..j + 1]) == Corners(faces, idx[..j]) + FaceCorners(faces[idx[j]])
  {
    assert idx[..j + 1][..j] == idx[..j];
  }

  lemma TrianglesSnoc(nc: seq<nat>, a: nat, b: nat, c: nat)
    requires |nc| % 3 == 0
    ensures Triangles(nc + [a, b, c]) == Triangles(nc) + [Face(a, b, c)]
  {
    assert (nc + [a, b, c])[..|nc|] == nc;
  }

  lemma GatherSnoc(vs: seq<Vec3>, os: seq<nat>, v: nat)
    requires IndicesWithin(os, |vs|) && v < |vs|
    ensures IndicesWithin(os + [v], |vs|) && Gather(vs, os + [v]) == Gather(vs, os) + [vs[v]]
  {
    assert (os + [v])[..|os|] == os;
  }

  /** The body of the per-material loop: name the sub-mesh and copy the vertices its faces use. */
  method BuildSubMesh(f: IfcFile, id: nat, vertices: seq<Vec3>, faces: seq<Face>, g: Group) returns (subMesh: Mesh)
    requires FacesWithin(faces, |vertices|) && IndicesWithin(g.faceIndices, |faces|)
    ensures subMesh == SubMesh(SubMeshName(GetIFCElementName(f, id), id, g.material), vertices, faces, g)
  {
    var elementName := GetIFCElementName(f, id);
    var name;
    if elementName != "" {
      name := elementName + "_Mat" + NatToString(g.material);
    } else {
      name := "Mesh " + NatToString(id) + "_Mat" + NatToString(g.material);
    }
    var idx := g.faceIndices;
    var vertexRemapping: map<nat, nat> := map[];
    var subVertices: seq<Vec3> := [];
    var subFaces: seq<Face> := [];
    ghost var origins: seq<nat> := [];
    ghost var newCorners: seq<nat> := [];
    assert idx[..0] == [];
    for j := 0 to |idx|
      invariant SubMeshState(vertices, faces, idx, j, vertexRemapping, subVertices, subFaces, origins, newCorners)
    {
      vertexRemapping, subVertices, subFaces, origins, newCorners :=
        CopyFace(vertices, faces, idx, j, vertexRemapping, subVertices, subFaces, origins, newCorners);
    }
    assert idx[..|idx|] == idx;
    subMesh := Mesh(name, subVertices, subFaces, g.material);
  }

  /**
   * The per-material loop after `j` faces: the remapping is that of their
   * corners, the vertices are the copies it made and the faces its corners
   * three at a time.
   */
  ghost predicate SubMeshState(vertices: seq<Vec3>, faces: seq<Face>, idx: seq<nat>, j: nat, table: map<nat, nat>,
                               subVertices: seq<Vec3>, subFaces: seq<Face>, origins: seq<nat>, newCorners: seq<nat>)
    requires FacesWithin(faces, |vertices|) && IndicesWithin(idx, |faces|) && j <= |idx|
  {
    Remap(table, origins, newCorners) == RemapAll(Corners(faces, idx[..j]))
    && IndicesWithin(origins, |vertices|) && subVertices == Gather(vertices, origins)
    && |newCorners| == 3 * j && subFaces == Triangles(newCorners)
  }

  /** One face of the group: its corners remapped and the renumbered face appended. */
  method CopyFace(vertices: seq<Vec3>, faces: seq<Face>, idx: seq<nat>, j: nat, table: map<nat, nat>,
                  subVertices: seq<Vec3>, subFaces: seq<Face>, ghost origins: seq<nat>, ghost newCorners: seq<nat>)
    returns (table': map<nat, nat>, subVertices': seq<Vec3>, subFaces': seq<Face>,
             ghost origins': seq<nat>, ghost newCorners': seq<nat>)
    requires FacesWithin(faces, |vertices|) && IndicesWithin(idx, |faces|) && j < |idx|
    requires SubMeshState(vertices, faces, idx, j, table, subVertices, subFaces, origins, newCorners)
    ensures SubMeshState(vertices, faces, idx, j + 1, table', subVertices', subFaces', origins', newCorners')
  {
    var originalFace := faces[idx[j]];
    assert FaceWithin(originalFace, |vertices|);
    CornersSnoc(faces, idx, j);
    RemapFaceCorners(Corners(faces, idx[..j]), originalFace);
    var newFace;
    table', subVertices', newFace, origins', newCorners' :=
      RemapFace(vertices, table, subVertices, originalFace, origins, newCorners);
    TrianglesSnoc(newCorners, newFace.i0, newFace.i1, newFace.i2);
    subFaces' := subFaces + [newFace];
  }

  /** The first `c` corners of a face, remapped in order from `r`. */
  function StepCorners(r: Remap, fc: Face, c: nat): Remap
    requires c <= 3
  {
    if c == 0 then r else RemapStep(StepCorners(r, fc, c - 1), fc.Corner(c - 1))
  }

  lemma StepCornersNext(r: Remap, fc: Face, c: nat)
    requires c < 3
    ensures StepCorners(r, fc, c + 1) == RemapStep(StepCorners(r, fc, c), fc.Corner(c))
  {
  }

  lemma RemapFaceCorners(before: seq<nat>, fc: Face)
    ensures RemapAll(before + FaceCorners(fc)) == StepCorners(RemapAll(before), fc, 3)
  {
    RemapAllSnoc(before, fc.i0);
    RemapAllSnoc(before + [fc.i0], fc.i1);
    RemapAllSnoc(before + [fc.i0, fc.i1], fc.i2);
    assert before + [fc.i0] + [fc.i1] == before + [fc.i0, fc.i1];
    assert before + [fc.i0, fc.i1] + [fc.i2] == before + FaceCorners(fc);
    var r := RemapAll(before);
    assert StepCorners(r, fc, 1) == RemapStep(r, fc.i0);
    assert StepCorners(r, fc, 2) == RemapStep(StepCorners(r, fc, 1), fc.i1);
    assert StepCorners(r, fc, 3) == RemapStep(StepCorners(r, fc, 2), fc.i2);
  }

  /** What RemapFace's loop knows after c corners of `fc`. */
  ghost predicate FaceState(vertices: seq<Vec3>, start: Remap, fc: Face, c: nat, table: map<nat, nat>,
                            subVertices: seq<Vec3>, origins: seq<nat>, newCorners: seq<nat>,
                            corners0: seq<nat>, newIndices: seq<nat>)
    requires c <= 3
  {
    Remap(table, origins, newCorners) == StepCorners(start, fc, c)
    && IndicesWithin(origins, |vertices|) && subVertices == Gather(vertices, origins)
    && |newIndices| == c && newCorners == corners0 + newIndices
  }

  /** The three corners of one original face, remapped in order. */
  method RemapFace(vertices: seq<Vec3>, table: map<nat, nat>, subVertices: seq<Vec3>, originalFace: Face,
                   ghost origins: seq<nat>, ghost newCorners: seq<nat>)
    returns (table': map<nat, nat>, subVertices': seq<Vec3>, newFace: Face,
             ghost origins': seq<nat>, ghost newCorners': seq<nat>)
    requires FaceWithin(originalFace, |vertices|)
    requires IndicesWithin(origins, |vertices|) && subVertices == Gather(vertices, origins)
    ensures Remap(table', origins', newCorners') == StepCorners(Remap(table, origins, newCorners), originalFace, 3)
    ensures IndicesWithin(origins', |vertices|) && subVertices' == Gather(vertices, origins')
    ensures newCorners' == newCorners + [newFace.i0, newFace.i1, newFace.i2]
  {
    table', subVertices', origins', newCorners' := table, subVertices, origins, newCorners;
    ghost var start := Remap(table, origins, newCorners);
    var newIndices: seq<nat> := [];
    for c := 0 to 3
      invariant FaceState(vertices, start, originalFace, c, table', subVertices', origins', newCorners', newCorners, newIndices)
    {
      table', subVertices', origins', newCorners', newIndices :=
        RemapNext(vertices, start, originalFace, c, table', subVertices', origins', newCorners', newCorners, newIndices);
    }
    newFace := Face(newIndices[0], newIndices[1], newIndices[2]);
    assert newIndices == [newFace.i0, newFace.i1, newFace.i2];
  }

  /** One turn of RemapFace's loop: corner c is remapped and its new index recorded. */
  method RemapNext(vertices: seq<Vec3>, ghost start: Remap, fc: Face, c: nat, table: map<nat, nat>,
                   subVertices: seq<Vec3>, ghost origins: seq<nat>, ghost newCorners: seq<nat>,
                   ghost corners0: seq<nat>, newIndices: seq<nat>)
    returns (table': map<nat, nat>, subVertices': seq<Vec3>, ghost origins': seq<nat>, ghost newCorners': seq<nat>,
             newIndices': seq<nat>)
    requires c < 3 && FaceWithin(fc, |vertices|)
    requires FaceState(vertices, start, fc, c, table, subVertices, origins, newCorners, corners0, newIndices)
    ensures FaceState(vertices, start, fc, c + 1, table', subVertices', origins', newCorners', corners0, newIndices')
  {
    var newIndex;
    table', subVertices', newIndex, origins', newCorners' :=
      RemapCorner(vertices, table, subVertices, fc.Corner(c), origins, newCorners);
    newIndices' := newIndices + [newIndex];
    FaceStateNext(vertices, start, fc, c, Remap(table, origins, newCorners), Remap(table', origins', newCorners'),
                  corners0, newIndices, newIndex);
  }

  /** The state after corner c, given the state before it and what RemapCorner promises. */
  lemma FaceStateNext(vertices: seq<Vec3>, start: Remap, fc: Face, c: nat, r: Remap, r': Remap,
                      corners0: seq<nat>, newIndices: seq<nat>, newIndex: nat)
    requires c < 3
    requires r == StepCorners(start, fc, c) && |newIndices| == c && r.newCorners == corners0 + newIndices
    requires r' == RemapStep(r, fc.Corner(c)) && r'.newCorners == r.newCorners + [newIndex]
    ensures r' == StepCorners(start, fc, c + 1) && r'.newCorners == corners0 + (newIndices + [newIndex])
  {
    StepCornersNext(start, fc, c);
  }

  /** One corner: look the original vertex up in vertexRemapping, copying it on first use. */
  method RemapCorner(vertices: seq<Vec3>, table: map<nat, nat>, subVertices: seq<Vec3>, originalVertexIndex: nat,
                     ghost origins: seq<nat>, ghost newCorners: seq<nat>)
    returns (table': map<nat, nat>, subVertices': seq<Vec3>, newIndex: nat,
             ghost origins': seq<nat>, ghost newCorners': seq<nat>)
    requires originalVertexIndex < |vertices|
    requires IndicesWithin(origins, |vertices|) && subVertices == Gather(vertices, origins)
    ensures Remap(table', origins', newCorners') == RemapStep(Remap(table, origins, newCorners), originalVertexIndex)
    ensures IndicesWithin(origins', |vertices|) && subVertices' == Gather(vertices, origins')
    ensures newCorners' == newCorners + [newIndex]
  {
    if originalVertexIndex in table {
      newIndex := table[originalVertexIndex];
      table', subVertices', origins' := table, subVertices, origins;
    } else {
      newIndex := |subVertices|;
      table' := table[originalVertexIndex := newIndex];
      subVertices' := subVertices + [vertices[originalVertexIndex]];
      origins' := origins + [originalVertexIndex];
      GatherSnoc(vertices, origins, originalVertexIndex);
    }
    newCorners' := newCorners + [newIndex];
  }
}
