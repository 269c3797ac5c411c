/**
 * ExtractGeometry: collect the elements that have geometry, turn each into
 * one mesh or, when its faces carry several materials, into one mesh per
 * material, record where every mesh came from, and put IFC_Default in
 * material slot 0 when some mesh uses slot 0.
 */
module GeometryExtraction {
  import opened Common
  import opened SceneTypes
  import opened ImporterCore
  import opened Materials
  import opened ColorMaterials
  import opened ElementNames
  import opened MeshMerge
  import opened MeshSplit

  /**
   * One element the schema's element list yields: its express id, its type
   * and the flat mesh GetFlatMesh returns for it (None when that call
   * throws).
   */
  datatype Candidate = Candidate(expressID: nat, elementType: nat, flatMesh: Option<seq<PlacedGeometry>>)

  /** The element types ExtractGeometry never asks for geometry. */
  predicate NonGeometric(t: nat) {
    t == IFCOPENINGELEMENT || t == IFCSPACE || t == IFCOPENINGSTANDARDCASE
  }

  predicate Kept(c: Candidate) {
    !NonGeometric(c.elementType) && c.flatMesh.Some? && |c.flatMesh.value| > 0
  }

  /** flatMeshesWithGeometry. */
  function Collected(cands: seq<Candidate>): seq<(nat, seq<PlacedGeometry>)> {
    if |cands| == 0 then []
    else
      var c := cands[|cands| - 1];
      Collected(cands[..|cands| - 1]) + (if Kept(c) then [(c.expressID, c.flatMesh.value)] else [])
  }

  /** Exactly the elements of a geometric type whose flat mesh has geometries are collected. */
  lemma {:induction false} CollectedIff(cands: seq<Candidate>, x: (nat, seq<PlacedGeometry>))
    ensures x in Collected(cands) <==>
              exists j :: 0 <= j < |cands| && Kept(cands[j]) && x == (cands[j].expressID, cands[j].flatMesh.value)
  {
    if |cands| > 0 {
      var init := cands[..|cands| - 1];
      CollectedIff(init, x);
      if exists j :: 0 <= j < |init| && Kept(init[j]) && x == (init[j].expressID, init[j].flatMesh.value) {
        var j :| 0 <= j < |init| && Kept(init[j]) && x == (init[j].expressID, init[j].flatMesh.value);
        assert cands[j] == init[j];
      }
      if exists j :: 0 <= j < |cands| && Kept(cands[j]) && x == (cands[j].expressID, cands[j].flatMesh.value) {
        var j :| 0 <= j < |cands| && Kept(cands[j]) && x == (cands[j].expressID, cands[j].flatMesh.value);
        if j < |init| {
          assert init[j] == cands[j];
        }
      }
    }
  }

  /** The collection loop over the schema's element types and their elements. */
  method CollectFlatMeshes(cands: seq<Candidate>) returns (flatMeshesWithGeometry: seq<(nat, seq<PlacedGeometry>)>)
    ensures flatMeshesWithGeometry == Collected(cands)
  {
    flatMeshesWithGeometry := [];
    for i := 0 to |cands|
      invariant flatMeshesWithGeometry == Collected(cands[..i])
    {
      assert cands[..i + 1][..i] == cands[..i];
      var c := cands[i];
      if c.elementType == IFCOPENINGELEMENT || c.elementType == IFCSPACE || c.elementType == IFCOPENINGSTANDARDCASE {
        continue;
      }
      if c.flatMesh.Some? && |c.flatMesh.value| > 0 {
        flatMeshesWithGeometry := flatMeshesWithGeometry + [(c.expressID, c.flatMesh.value)];
      }
    }
    assert cands[..|cands|] == cands;
  }

  predicate AllWellFormed(gs: seq<PlacedGeometry>) {
    forall j :: 0 <= j < |gs| ==> GeometryWellFormed(gs[j])
  }

  /** Web-IFC's geometry buffers are consistent for every element. */
  predicate CandidatesWellFormed(cands: seq<Candidate>) {
    forall j :: 0 <= j < |cands| && cands[j].flatMesh.Some? ==> AllWellFormed(cands[j].flatMesh.value)
  }

  lemma CollectedWellFormed(cands: seq<Candidate>)
    requires CandidatesWellFormed(cands)
    ensures forall k :: 0 <= k < |Collected(cands)| ==> AllWellFormed(Collected(cands)[k].1)
  {
    forall k | 0 <= k < |Collected(cands)|
      ensures AllWellFormed(Collected(cands)[k].1)
    {
      CollectedIff(cands, Collected(cands)[k]);
    }
  }

  /** The loop state of ExtractGeometry: meshes so far, their metadata, the scene materials, the colour cache and needsDefaultMaterial. */
  datatype Extraction = Extraction(meshes: seq<Mesh>, metadata: map<nat, MeshMetadata>, materials: seq<Material>,
                                   cache: map<string, nat>, needsDefault: bool)

  predicate HasSlotZero(ms: seq<Mesh>) {
    exists i :: 0 <= i < |ms| && ms[i].materialIndex == 0
  }

  lemma HasSlotZeroAppend(a: seq<Mesh>, b: seq<Mesh>)
    ensures HasSlotZero(a + b) <==> HasSlotZero(a) || HasSlotZero(b)
  {
    if HasSlotZero(a + b) {
      var i :| 0 <= i < |a + b| && (a + b)[i].materialIndex == 0;
      if i >= |a| {
        assert b[i - |a|].materialIndex == 0;
      }
    }
    if HasSlotZero(b) {
      var i :| 0 <= i < |b| && b[i].materialIndex == 0;
      assert (a + b)[|a| + i].materialIndex == 0;
    }
    if HasSlotZero(a) {
      var i :| 0 <= i < |a| && a[i].materialIndex == 0;
      assert (a + b)[i].materialIndex == 0;
    }
  }

  /**
   * What the loop keeps true: a valid colour cache, the material pass's
   * slots and every mesh's material in range, valid meshes, metadata for
   * exactly the meshes so far, and needsDefaultMaterial set exactly when a
   * mesh uses slot 0.
   */
  ghost predicate ExtractionValid(e: Extraction, idToIndex: map<nat, nat>) {
    CacheValid(e.materials, e.cache)
    && (forall id :: id in idToIndex ==> idToIndex[id] < |e.materials|)
    && (forall i :: 0 <= i < |e.meshes| ==> MeshValid(e.meshes[i], |e.materials|))
    && (forall k: nat :: k in e.metadata <==> k < |e.meshes|)
    && (e.needsDefault <==> HasSlotZero(e.meshes))
  }

  /** The name of an unsplit mesh: the element name, or `Mesh <id>`. */
  function SingleName(elementName: string, id: nat): string {
    if elementName != "" then elementName else "Mesh " + NatToString(id)
  }

  /** The same metadata record for the `n` meshes from index `start` on. */
  function AddMetadata(md: map<nat, MeshMetadata>, start: nat, n: nat, rec: MeshMetadata): (r: map<nat, MeshMetadata>)
    ensures forall k :: k in r <==> k in md || start <= k < start + n
    ensures forall k :: start <= k < start + n ==> r[k] == rec
    ensures forall k :: k in md && !(start <= k < start + n) ==> r[k] == md[k]
  {
    if n == 0 then md else AddMetadata(md, start, n - 1, rec)[start + n - 1 := rec]
  }

  /** The meshes CreateSplitMeshesFromFlatMesh returns for its merge. */
  function SplitOutcome(f: IfcFile, id: nat, m: Merged): seq<Mesh>
    requires MergeValid(m)
  {
    if |m.vertices| == 0 || |m.faces| == 0 then [] else SplitMeshes(f, id, m.vertices, m.faces, m.faceMaterials)
  }

  /** The meshes one element yields, with the materials and cache after its merges. */
  datatype Produced = Produced(meshes: seq<Mesh>, materials: seq<Material>, cache: map<string, nat>)

  /**
   * The meshes of one element: none when the merged buffers are empty; one
   * mesh named after the element (or `Mesh <id>`) when all its faces share
   * a material; otherwise the second merge, which keeps empty buffers, split
   * into one mesh per material.
   */
  function Produce(f: IfcFile, id: nat, gs: seq<PlacedGeometry>, slot: Option<nat>,
                   materials: seq<Material>, cache: map<string, nat>): Produced
    requires CacheValid(materials, cache) && AllWellFormed(gs) && (slot.Some? ==> slot.value < |materials|)
  {
    MergeAllValid(EmptyMerge(materials, cache), gs, slot, true);
    var m1 := MergeAll(EmptyMerge(materials, cache), gs, slot, true);
    match MeshFromMerged(id, m1)
    case None => Produced([], m1.materials, m1.cache)
    case Some(mesh) =>
      if StartsWith(mesh.name, SplitMarker) then
        MergeAllValid(EmptyMerge(m1.materials, m1.cache), gs, slot, false);
        var m2 := MergeAll(EmptyMerge(m1.materials, m1.cache), gs, slot, false);
        Produced(SplitOutcome(f, id, m2), m2.materials, m2.cache)
      else
        Produced([mesh.(name := SingleName(GetIFCElementName(f, id), id))], m1.materials, m1.cache)
  }

  /**
   * An element's meshes are valid against the grown material array, the
   * array only grows and the cache stays valid; a single mesh keeps every
   * merged face, a split gives meshes with pairwise different materials.
   */
  lemma ProduceValid(f: IfcFile, id: nat, gs: seq<PlacedGeometry>, slot: Option<nat>,
                     materials: seq<Material>, cache: map<string, nat>)
    requires CacheValid(materials, cache) && AllWellFormed(gs) && (slot.Some? ==> slot.value < |materials|)
    ensures var p := Produce(f, id, gs, slot, materials, cache);
            CacheValid(p.materials, p.cache) && materials <= p.materials
            && (forall i :: 0 <= i < |p.meshes| ==> MeshValid(p.meshes[i], |p.materials|))
            && (forall a, b :: 0 <= a < b < |p.meshes| ==> p.meshes[a].materialIndex != p.meshes[b].materialIndex)
  {
    MergeAllValid(EmptyMerge(materials, cache), gs, slot, true);
    var m1 := MergeAll(EmptyMerge(materials, cache), gs, slot, true);
    MeshFromMergedValid(id, m1);
    match MeshFromMerged(id, m1)
    case None =>
    case Some(mesh) =>
      if StartsWith(mesh.name, SplitMarker) {
        MergeAllValid(EmptyMerge(m1.materials, m1.cache), gs, slot, false);
        var m2 := MergeAll(EmptyMerge(m1.materials, m1.cache), gs, slot, false);
        SplitOutcomeValid(f, id, m2);
      } else {
        var named := mesh.(name := SingleName(GetIFCElementName(f, id), id));
        assert MeshValid(named, |m1.materials|);
      }
  }

  /** The meshes of a split are valid and have pairwise different materials. */
  lemma SplitOutcomeValid(f: IfcFile, id: nat, m: Merged)
    requires MergeValid(m)
    ensures var r := SplitOutcome(f, id, m);
            (forall i :: 0 <= i < |r| ==> MeshValid(r[i], |m.materials|))
            && (forall a, b :: 0 <= a < b < |r| ==> r[a].materialIndex != r[b].materialIndex)
  {
    if |m.vertices| > 0 && |m.faces| > 0 {
      SplitMeshesValid(f, id, m.vertices, m.faces, m.faceMaterials, |m.materials|);
    }
  }

  /** The loop state after an element's meshes are pushed, each recorded with `rec`. */
  function Recorded(e: Extraction, p: Produced, rec: MeshMetadata): Extraction {
    Extraction(e.meshes + p.meshes, AddMetadata(e.metadata, |e.meshes|, |p.meshes|, rec), p.materials, p.cache,
               e.needsDefault || HasSlotZero(p.meshes))
  }

  /**
   * One element of the geometry loop. A GetLineType that throws (no type
   * for the element) is caught by the loop: the element's meshes are
   * dropped while the materials it created stay. An element without
   * meshes records nothing either way.
   */
  function ElementStep(f: IfcFile, typeName: nat -> string, rel: map<nat, seq<(nat, nat)>>, idToIndex: map<nat, nat>,
                       e: Extraction, id: nat, gs: seq<PlacedGeometry>): Extraction
    requires ExtractionValid(e, idToIndex) && AllWellFormed(gs)
  {
    var p := Produce(f, id, gs, IfcMaterialSlot(rel, idToIndex, id), e.materials, e.cache);
    match LineType(f, id)
    case None => e.(materials := p.materials, cache := p.cache)
    case Some(t) => Recorded(e, p, MeshMetadata(id, typeName(t), GetIFCElementName(f, id)))
  }

  /**
   * One element keeps the loop state valid, only appends meshes and
   * materials, and every mesh it adds is recorded as coming from it.
   */
  lemma ElementStepValid(f: IfcFile, typeName: nat -> string, rel: map<nat, seq<(nat, nat)>>, idToIndex: map<nat, nat>,
                         e: Extraction, id: nat, gs: seq<PlacedGeometry>)
    requires ExtractionValid(e, idToIndex) && AllWellFormed(gs)
    ensures var r := ElementStep(f, typeName, rel, idToIndex, e, id, gs);
            ExtractionValid(r, idToIndex) && e.materials <= r.materials && e.meshes <= r.meshes
            && KeepsRecords(e.metadata, r.metadata)
            && (forall k :: |e.meshes| <= k < |r.meshes| ==> k in r.metadata && r.metadata[k].expressID == id)
  {
    var p := Produce(f, id, gs, IfcMaterialSlot(rel, idToIndex, id), e.materials, e.cache);
    ProduceValid(f, id, gs, IfcMaterialSlot(rel, idToIndex, id), e.materials, e.cache);
    match LineType(f, id)
    case None =>
      KeepMeshesValid(e, p, idToIndex);
    case Some(t) =>
      RecordedValid(e, p, MeshMetadata(id, typeName(t), GetIFCElementName(f, id)), idToIndex);
  }

  /** Materials created by an element whose meshes are dropped keep the loop state valid. */
  lemma KeepMeshesValid(e: Extraction, p: Produced, idToIndex: map<nat, nat>)
    requires ExtractionValid(e, idToIndex)
    requires CacheValid(p.materials, p.cache) && e.materials <= p.materials
    ensures ExtractionValid(e.(materials := p.materials, cache := p.cache), idToIndex)
  {
    forall i | 0 <= i < |e.meshes|
      ensures MeshValid(e.meshes[i], |p.materials|)
    {
    }
  }

  /** Pushing valid meshes with their record keeps the loop state valid. */
  lemma RecordedValid(e: Extraction, p: Produced, rec: MeshMetadata, idToIndex: map<nat, nat>)
    requires ExtractionValid(e, idToIndex)
    requires CacheValid(p.materials, p.cache) && e.materials <= p.materials
    requires forall i :: 0 <= i < |p.meshes| ==> MeshValid(p.meshes[i], |p.materials|)
    ensures var r := Recorded(e, p, rec);
            ExtractionValid(r, idToIndex)
            && (forall k :: k in e.metadata ==> r.metadata[k] == e.metadata[k])
            && (forall k :: |e.meshes| <= k < |r.meshes| ==> r.metadata[k] == rec)
  {
    var r := Recorded(e, p, rec);
    HasSlotZeroAppend(e.meshes, p.meshes);
    forall i | 0 <= i < |r.meshes|
      ensures MeshValid(r.meshes[i], |r.materials|)
    {
      if i >= |e.meshes| {
        assert r.meshes[i] == p.meshes[i - |e.meshes|];
      } else {
        assert r.meshes[i] == e.meshes[i];
      }
    }
  }

  /** The loop starts valid: no meshes, no metadata, an empty cache. */
  lemma InitialValid(materials: seq<Material>, idToIndex: map<nat, nat>)
    requires forall id :: id in idToIndex ==> idToIndex[id] < |materials|
    ensures ExtractionValid(InitialExtraction(materials), idToIndex)
  {
    var e := InitialExtraction(materials);
    assert forall k :: k !in e.metadata;
    assert !HasSlotZero(e.meshes);
  }

  /** The whole loop, element by element. */
  function ExtractAll(f: IfcFile, typeName: nat -> string, rel: map<nat, seq<(nat, nat)>>, idToIndex: map<nat, nat>,
                      e: Extraction, elems: seq<(nat, seq<PlacedGeometry>)>): (r: Extraction)
    requires ExtractionValid(e, idToIndex)
    requires forall k :: 0 <= k < |elems| ==> AllWellFormed(elems[k].1)
    ensures ExtractionValid(r, idToIndex) && e.materials <= r.materials && e.meshes <= r.meshes
  {
    if |elems| == 0 then e
    else
      var prev := ExtractAll(f, typeName, rel, idToIndex, e, elems[..|elems| - 1]);
      ElementStepValid(f, typeName, rel, idToIndex, prev, elems[|elems| - 1].0, elems[|elems| - 1].1);
      ElementStep(f, typeName, rel, idToIndex, prev, elems[|elems| - 1].0, elems[|elems| - 1].1)
  }

  /** One loop step: the state after `elems[..i + 1]` is the element step applied to the state after `elems[..i]`. */
  lemma ExtractAllSnoc(f: IfcFile, typeName: nat -> string, rel: map<nat, seq<(nat, nat)>>, idToIndex: map<nat, nat>,
                       e: Extraction, elems: seq<(nat, seq<PlacedGeometry>)>, i: nat)
    requires ExtractionValid(e, idToIndex) && i < |elems|
    requires forall k :: 0 <= k < |elems| ==> AllWellFormed(elems[k].1)
    ensures ExtractionValid(ExtractAll(f, typeName, rel, idToIndex, e, elems[..i]), idToIndex)
    ensures ExtractAll(f, typeName, rel, idToIndex, e, elems[..i + 1])
         == ElementStep(f, typeName, rel, idToIndex, ExtractAll(f, typeName, rel, idToIndex, e, elems[..i]), elems[i].0, elems[i].1)
  {
    assert elems[..i + 1][..i] == elems[..i];
  }

  /** The element IDs of the collected elements, in loop order. */
  function ElementIds(elems: seq<(nat, seq<PlacedGeometry>)>): seq<nat> {
    if |elems| == 0 then [] else ElementIds(elems[..|elems| - 1]) + [elems[|elems| - 1].0]
  }

  /** Every record of `before` is still in `md`, unchanged. */
  ghost predicate KeepsRecords(before: map<nat, MeshMetadata>, md: map<nat, MeshMetadata>) {
    forall k :: k in before ==> k in md && md[k] == before[k]
  }

  /** The meshes `lo` to `hi` all have a record naming one of `ids`. */
  ghost predicate RecordsFrom(md: map<nat, MeshMetadata>, lo: nat, hi: nat, ids: seq<nat>) {
    forall k :: lo <= k < hi ==> k in md && md[k].expressID in ids
  }

  lemma RecordsFromGrow(prev: map<nat, MeshMetadata>, md: map<nat, MeshMetadata>, lo: nat, mid: nat, hi: nat,
                        ids: seq<nat>, id: nat)
    requires RecordsFrom(prev, lo, mid, ids) && KeepsRecords(prev, md)
    requires forall k :: mid <= k < hi ==> k in md && md[k].expressID == id
    ensures RecordsFrom(md, lo, hi, ids + [id])
  {
    forall k | lo <= k < hi
      ensures k in md && md[k].expressID in ids + [id]
    {
      if k < mid {
        assert md[k] == prev[k];
      }
    }
  }

  /**
   * Every mesh the loop adds is recorded as coming from one of the
   * collected elements, and the records of earlier meshes are kept.
   */
  lemma {:induction false} ExtractAllOrigin(f: IfcFile, typeName: nat -> string, rel: map<nat, seq<(nat, nat)>>,
                                            idToIndex: map<nat, nat>, e: Extraction, elems: seq<(nat, seq<PlacedGeometry>)>)
    requires ExtractionValid(e, idToIndex)
    requires forall k :: 0 <= k < |elems| ==> AllWellFormed(elems[k].1)
    ensures var r := ExtractAll(f, typeName, rel, idToIndex, e, elems);
            KeepsRecords(e.metadata, r.metadata) && RecordsFrom(r.metadata, |e.meshes|, |r.meshes|, ElementIds(elems))
  {
    if |elems| > 0 {
      var init := elems[..|elems| - 1];
      var last := elems[|elems| - 1];
      ExtractAllOrigin(f, typeName, rel, idToIndex, e, init);
      var prev := ExtractAll(f, typeName, rel, idToIndex, e, init);
      ElementStepValid(f, typeName, rel, idToIndex, prev, last.0, last.1);
      var r := ExtractAll(f, typeName, rel, idToIndex, e, elems);
      assert r == ElementStep(f, typeName, rel, idToIndex, prev, last.0, last.1);
      assert KeepsRecords(prev.metadata, r.metadata);
      RecordsFromGrow(prev.metadata, r.metadata, |e.meshes|, |prev.meshes|, |r.meshes|, ElementIds(init), last.0);
    }
  }

  /** The scene's materials and meshes once the loop is over. */
  datatype SceneParts = SceneParts(materials: seq<Material>, meshes: seq<Mesh>)

  /** The default-slot insertion, applied only when needsDefaultMaterial is set. */
  function Finish(materials: seq<Material>, meshes: seq<Mesh>, needsDefault: bool): SceneParts {
    if needsDefault then
      SceneParts([DefaultMaterial()] + materials,
                 seq(|meshes|, i requires 0 <= i < |meshes| => meshes[i].(materialIndex := ShiftNonZero(meshes[i].materialIndex))))
    else SceneParts(materials, meshes)
  }

  /** The end of ExtractGeometry: the default-slot insertion when needed, then the scene's mesh array. */
  method FinishScene(scene: Scene, meshes: seq<Mesh>, needsDefault: bool)
    modifies scene
    ensures SceneParts(scene.materials, scene.meshes) == Finish(old(scene.materials), meshes, needsDefault)
    ensures scene.nodes == old(scene.nodes) && scene.root == old(scene.root)
  {
    var finalMeshes := meshes;
    if needsDefault {
      finalMeshes := InsertDefaultMaterial(scene, meshes);
    }
    scene.meshes := finalMeshes;
  }

  /**
   * After the insertion every mesh is still valid and keeps its faces, a
   * mesh on a non-zero slot still shows the material it had, every mesh on
   * slot 0 shows IFC_Default (whatever slot 0 held before), and IFC_Default
   * is inserted exactly when some mesh used slot 0.
   */
  lemma FinishValid(e: Extraction, idToIndex: map<nat, nat>)
    requires ExtractionValid(e, idToIndex)
    ensures var p := Finish(e.materials, e.meshes, e.needsDefault);
            |p.meshes| == |e.meshes|
            && (forall i :: 0 <= i < |p.meshes| ==>
                  MeshValid(p.meshes[i], |p.materials|) && p.meshes[i].faces == e.meshes[i].faces
                  && p.meshes[i].vertices == e.meshes[i].vertices && p.meshes[i].name == e.meshes[i].name)
            && (forall i :: 0 <= i < |p.meshes| && e.meshes[i].materialIndex > 0 ==>
                  p.materials[p.meshes[i].materialIndex] == e.materials[e.meshes[i].materialIndex])
            && (forall i :: 0 <= i < |p.meshes| && e.meshes[i].materialIndex == 0 ==>
                  p.meshes[i].materialIndex == 0 && p.materials[0] == DefaultMaterial())
            && (p.materials == [DefaultMaterial()] + e.materials <==> HasSlotZero(e.meshes))
            && (!HasSlotZero(e.meshes) ==> p.materials == e.materials)
  {
    var p := Finish(e.materials, e.meshes, e.needsDefault);
    if e.needsDefault {
      forall i | 0 <= i < |p.meshes|
        ensures MeshValid(p.meshes[i], |p.materials|)
      {
        InsertedDefaultResolution(e.materials, e.meshes[i].materialIndex);
      }
      forall i | 0 <= i < |p.meshes| && e.meshes[i].materialIndex > 0
        ensures p.materials[p.meshes[i].materialIndex] == e.materials[e.meshes[i].materialIndex]
      {
        InsertedDefaultResolution(e.materials, e.meshes[i].materialIndex);
      }
    } else {
      assert |p.materials| != |[DefaultMaterial()] + e.materials|;
    }
  }

  /** The metadata of an element's meshes names that element. */
  method RecordMesh(imp: Importer, meshes: seq<Mesh>, mesh: Mesh, rec: MeshMetadata) returns (meshes': seq<Mesh>)
    modifies imp
    ensures meshes' == meshes + [mesh]
    ensures imp.meshToIFCMetadata == old(imp.meshToIFCMetadata)[|meshes| := rec]
    ensures imp.settings == old(imp.settings) && imp.materialIDToIndex == old(imp.materialIDToIndex)
    ensures imp.elementToStoreyMap == old(imp.elementToStoreyMap) && imp.currentModelID == old(imp.currentModelID)
  {
    var meshIndex := |meshes|;
    imp.meshToIFCMetadata := imp.meshToIFCMetadata[meshIndex := rec];
    meshes' := meshes + [mesh];
  }

  /**
   * CreateSplitMeshesFromFlatMesh: no geometry gives no mesh; otherwise the
   * merge, this time without skipping empty buffers, and its split.
   */
  method CreateSplitMeshesFromFlatMesh(scene: Scene, f: IfcFile, id: nat, gs: seq<PlacedGeometry>,
                                       rel: map<nat, seq<(nat, nat)>>, idToIndex: map<nat, nat>, cache: map<string, nat>)
    returns (splitMeshes: seq<Mesh>, cache': map<string, nat>)
    requires CacheValid(scene.materials, cache) && AllWellFormed(gs)
    requires forall k :: k in idToIndex ==> idToIndex[k] < |scene.materials|
    modifies scene
    ensures var m := MergeAll(EmptyMerge(old(scene.materials), cache), gs, IfcMaterialSlot(rel, idToIndex, id), false);
            MergeValid(m) && splitMeshes == SplitOutcome(f, id, m) && scene.materials == m.materials && cache' == m.cache
    ensures scene.meshes == old(scene.meshes) && scene.nodes == old(scene.nodes) && scene.root == old(scene.root)
  {
    MergeAllValid(EmptyMerge(scene.materials, cache), gs, IfcMaterialSlot(rel, idToIndex, id), false);
    if |gs| == 0 {
      return [], cache;
    }
    var vertices, faces, faceMaterials;
    vertices, faces, faceMaterials, cache' := MergeGeometries(scene, id, gs, rel, idToIndex, cache, false);
    if |vertices| == 0 || |faces| == 0 {
      return [], cache';
    }
    splitMeshes := SplitMeshByMaterials(f, id, vertices, faces, faceMaterials);
  }

  /** `meshName.find("NeedsSplitting_") == 0`. */
  lemma FindAtStart(s: string, p: string)
    ensures FindFrom(s, p, 0) == Some(0) <==> StartsWith(s, p)
  {
    if StartsWith(s, p) {
      assert s[0..|p|] == s[..|p|];
      assert OccursAt(s, p, 0);
    }
  }

  /**
   * The mesh-building half of the loop body: CreateMeshFromFlatMesh, then
   * either CreateSplitMeshesFromFlatMesh or the element's name.
   */
  method ElementMeshes(scene: Scene, f: IfcFile, id: nat, gs: seq<PlacedGeometry>, rel: map<nat, seq<(nat, nat)>>,
                       idToIndex: map<nat, nat>, cache: map<string, nat>)
    returns (produced: seq<Mesh>, cache': map<string, nat>)
    requires CacheValid(scene.materials, cache) && AllWellFormed(gs)
    requires forall k :: k in idToIndex ==> idToIndex[k] < |scene.materials|
    modifies scene
    ensures Produced(produced, scene.materials, cache')
         == Produce(f, id, gs, IfcMaterialSlot(rel, idToIndex, id), old(scene.materials), cache)
    ensures scene.meshes == old(scene.meshes) && scene.nodes == old(scene.nodes) && scene.root == old(scene.root)
  {
    MergeAllValid(EmptyMerge(scene.materials, cache), gs, IfcMaterialSlot(rel, idToIndex, id), true);
    var assimpMesh, cache1 := CreateMeshFromFlatMesh(scene, id, gs, rel, idToIndex, cache);
    if assimpMesh.None? {
      return [], cache1;
    }
    var meshName := assimpMesh.value.name;
    FindAtStart(meshName, SplitMarker);
    if FindFrom(meshName, "NeedsSplitting_", 0) == Some(0) {
      produced, cache' := CreateSplitMeshesFromFlatMesh(scene, f, id, gs, rel, idToIndex, cache1);
    } else {
      var elementName := GetIFCElementName(f, id);
      var named;
      if elementName != "" {
        named := assimpMesh.value.(name := elementName);
      } else {
        named := assimpMesh.value.(name := "Mesh " + NatToString(id));
      }
      produced, cache' := [named], cache1;
    }
  }

  lemma SlotZeroPrefix(ms: seq<Mesh>, k: nat)
    requires k < |ms|
    ensures HasSlotZero(ms[..k + 1]) <==> HasSlotZero(ms[..k]) || ms[k].materialIndex == 0
  {
    assert ms[..k + 1] == ms[..k] + [ms[k]];
    HasSlotZeroAppend(ms[..k], [ms[k]]);
    assert HasSlotZero([ms[k]]) <==> ms[k].materialIndex == 0;
  }

  /** One turn of RecordAll's loop: the k-th produced mesh is pushed and recorded. */
  method RecordNext(imp: Importer, meshes: seq<Mesh>, produced: seq<Mesh>, k: nat, rec: MeshMetadata, needsDefault: bool,
                    meshesK: seq<Mesh>, needsDefaultK: bool, ghost md0: map<nat, MeshMetadata>)
    returns (meshes': seq<Mesh>, needsDefault': bool)
    requires k < |produced| && meshesK == meshes + produced[..k]
    requires imp.meshToIFCMetadata == AddMetadata(md0, |meshes|, k, rec)
    requires needsDefaultK == (needsDefault || HasSlotZero(produced[..k]))
    modifies imp
    ensures meshes' == meshes + produced[..k + 1]
    ensures imp.meshToIFCMetadata == AddMetadata(md0, |meshes|, k + 1, rec)
    ensures needsDefault' == (needsDefault || HasSlotZero(produced[..k + 1]))
    ensures imp.settings == old(imp.settings) && imp.materialIDToIndex == old(imp.materialIDToIndex)
    ensures imp.elementToStoreyMap == old(imp.elementToStoreyMap) && imp.currentModelID == old(imp.currentModelID)
  {
    SlotZeroPrefix(produced, k);
    assert |meshesK| == |meshes| + k;
    meshes' := RecordMesh(imp, meshesK, produced[k], rec);
    assert meshes' == meshes + produced[..k + 1] by {
      assert produced[..k + 1] == produced[..k] + [produced[k]];
    }
    needsDefault' := needsDefaultK;
    if produced[k].materialIndex == 0 {
      needsDefault' := true;
    }
  }

  /** Pushes an element's meshes, recording `rec` for each and raising needsDefaultMaterial on slot 0. */
  method RecordAll(imp: Importer, meshes: seq<Mesh>, produced: seq<Mesh>, rec: MeshMetadata, needsDefault: bool)
    returns (meshes': seq<Mesh>, needsDefault': bool)
    modifies imp
    ensures meshes' == meshes + produced && needsDefault' == (needsDefault || HasSlotZero(produced))
    ensures imp.meshToIFCMetadata == AddMetadata(old(imp.meshToIFCMetadata), |meshes|, |produced|, rec)
    ensures imp.settings == old(imp.settings) && imp.materialIDToIndex == old(imp.materialIDToIndex)
    ensures imp.elementToStoreyMap == old(imp.elementToStoreyMap) && imp.currentModelID == old(imp.currentModelID)
  {
    meshes', needsDefault' := meshes, needsDefault;
    for k := 0 to |produced|
      invariant meshes' == meshes + produced[..k]
      invariant imp.meshToIFCMetadata == AddMetadata(old(imp.meshToIFCMetadata), |meshes|, k, rec)
      invariant needsDefault' == (needsDefault || HasSlotZero(produced[..k]))
      invariant imp.settings == old(imp.settings) && imp.materialIDToIndex == old(imp.materialIDToIndex)
      invariant imp.elementToStoreyMap == old(imp.elementToStoreyMap) && imp.currentModelID == old(imp.currentModelID)
    {
      meshes', needsDefault' := RecordNext(imp, meshes, produced, k, rec, needsDefault, meshes', needsDefault', old(imp.meshToIFCMetadata));
    }
    assert produced[..|produced|] == produced;
  }

  /** The body of the geometry loop for one element. */
  method ProcessElement(imp: Importer, scene: Scene, f: IfcFile, typeName: nat -> string, rel: map<nat, seq<(nat, nat)>>,
                        id: nat, gs: seq<PlacedGeometry>, meshes: seq<Mesh>, cache: map<string, nat>, needsDefault: bool)
    returns (meshes': seq<Mesh>, cache': map<string, nat>, needsDefault': bool)
    requires ExtractionValid(Extraction(meshes, imp.meshToIFCMetadata, scene.materials, cache, needsDefault), imp.materialIDToIndex)
    requires AllWellFormed(gs)
    modifies imp, scene
    ensures Extraction(meshes', imp.meshToIFCMetadata, scene.materials, cache', needsDefault')
         == ElementStep(f, typeName, rel, old(imp.materialIDToIndex),
                        Extraction(meshes, old(imp.meshToIFCMetadata), old(scene.materials), cache, needsDefault), id, gs)
    ensures imp.settings == old(imp.settings) && imp.materialIDToIndex == old(imp.materialIDToIndex)
    ensures imp.elementToStoreyMap == old(imp.elementToStoreyMap) && imp.currentModelID == old(imp.currentModelID)
    ensures scene.meshes == old(scene.meshes) && scene.nodes == old(scene.nodes) && scene.root == old(scene.root)
  {
    var produced, cache1 := ElementMeshes(scene, f, id, gs, rel, imp.materialIDToIndex, cache);
    meshes', cache', needsDefault' := meshes, cache1, needsDefault;
    if produced == [] {
      assert AddMetadata(imp.meshToIFCMetadata, |meshes|, 0, MeshMetadata(id, "", "")) == imp.meshToIFCMetadata;
      assert !HasSlotZero(produced);
      return;
    }
    var elementName := GetIFCElementName(f, id);
    var lineType := LineType(f, id);
    if lineType.None? {
      return;
    }
    meshes', needsDefault' := RecordAll(imp, meshes, produced, MeshMetadata(id, typeName(lineType.value), elementName), needsDefault);
  }

  function InitialExtraction(materials: seq<Material>): Extraction {
    Extraction([], map[], materials, map[], false)
  }

  /**
   * ExtractGeometry. `modelOpen` is false when the model is not open;
   * `cands` lists the schema's element types' elements with their flat
   * meshes; `rel` is GetRelMaterials; `typeName` is IfcTypeCodeToType.
   */
  method ExtractGeometry(imp: Importer, scene: Scene, f: IfcFile, modelOpen: bool, cands: seq<Candidate>,
                         rel: map<nat, seq<(nat, nat)>>, typeName: nat -> string)
    requires forall id :: id in imp.materialIDToIndex ==> imp.materialIDToIndex[id] < |scene.materials|
    requires CandidatesWellFormed(cands)
    modifies imp, scene
    ensures !modelOpen ==> scene.materials == old(scene.materials) && scene.meshes == old(scene.meshes)
                           && imp.meshToIFCMetadata == old(imp.meshToIFCMetadata)
    ensures modelOpen ==>
              (forall k :: 0 <= k < |Collected(cands)| ==> AllWellFormed(Collected(cands)[k].1)) &&
              ExtractionValid(InitialExtraction(old(scene.materials)), old(imp.materialIDToIndex)) &&
              var e := ExtractAll(f, typeName, rel, old(imp.materialIDToIndex), InitialExtraction(old(scene.materials)), Collected(cands));
              SceneParts(scene.materials, scene.meshes) == Finish(e.materials, e.meshes, e.needsDefault)
              && imp.meshToIFCMetadata == e.metadata
    ensures imp.settings == old(imp.settings) && imp.materialIDToIndex == old(imp.materialIDToIndex)
    ensures imp.elementToStoreyMap == old(imp.elementToStoreyMap) && imp.currentModelID == old(imp.currentModelID)
    ensures scene.nodes == old(scene.nodes) && scene.root == old(scene.root)
  {
    if !modelOpen {
      return;
    }
    imp.meshToIFCMetadata := map[];
    var meshes: seq<Mesh> := [];
    var flat := CollectFlatMeshes(cands);
    CollectedWellFormed(cands);
    var e0 := InitialExtraction(scene.materials);
    var idToIndex := imp.materialIDToIndex;
    InitialValid(scene.materials, idToIndex);
    var colorMaterialCache: map<string, nat> := map[];
    var needsDefaultMaterial := false;
    for i := 0 to |flat|
      invariant imp.settings == old(imp.settings) && imp.materialIDToIndex == idToIndex
      invariant Extraction(meshes, imp.meshToIFCMetadata, scene.materials, colorMaterialCache, needsDefaultMaterial)
             == ExtractAll(f, typeName, rel, idToIndex, e0, flat[..i])
      invariant imp.elementToStoreyMap == old(imp.elementToStoreyMap) && imp.currentModelID == old(imp.currentModelID)
      invariant scene.nodes == old(scene.nodes) && scene.root == old(scene.root)
    {
      ExtractAllSnoc(f, typeName, rel, idToIndex, e0, flat, i);
      meshes, colorMaterialCache, needsDefaultMaterial :=
        ProcessElement(imp, scene, f, typeName, rel, flat[i].0, flat[i].1, meshes, colorMaterialCache, needsDefaultMaterial);
    }
    assert flat[..|flat|] == flat;
    FinishScene(scene, meshes, needsDefaultMaterial);
  }
}
