/**
 * The names CreateNodeFromIFCElement gives the nodes of the spatial
 * hierarchy, and the GlobalId renaming ExtractElementProperties applies to
 * them afterwards.
 */
module NodeNaming {
  import opened Common
  import opened IfcString
  import opened ImporterCore
  import opened ElementNames
  import opened SceneTypes

  /** The name argument: LongName (7) for a space, Name (2) for everything else. */
  function NameArgument(t: nat): nat {
    if t == IFCSPACE then 7 else 2
  }

  /** `<fallback>_<type>_<id>`, used when the name argument is an empty string. */
  function TypedFallback(fallbackName: string, t: nat, id: nat): string {
    fallbackName + "_" + NatToString(t) + "_" + NatToString(id)
  }

  /** `<fallback>_<id>`, used when no read gives a string. */
  function PlainFallback(fallbackName: string, id: nat): string {
    fallbackName + "_" + NatToString(id)
  }

  /**
   * The name CreateNodeFromIFCElement sets: the decoded raw name argument;
   * when that read throws, the decoded-string read of the same argument;
   * when that throws too, or the type cannot be read, `<fallback>_<id>`.
   */
  function InitialNodeName(f: IfcFile, id: nat, fallbackName: string): string {
    match LineType(f, id)
    case None => PlainFallback(fallbackName, id)
    case Some(t) =>
      var k := NameArgument(t);
      match RawString(f, id, k)
      case Some(raw) => if raw != [] then Decode(raw) else TypedFallback(fallbackName, t, id)
      case None =>
        match DecodedString(f, id, k)
        case Some(decoded) => if decoded != [] then Decode(decoded) else TypedFallback(fallbackName, t, id)
        case None => PlainFallback(fallbackName, id)
  }

  /** `substr(0, 8)`. */
  function Prefix8(s: string): (p: string)
    ensures p <= s && |p| == if |s| < 8 then |s| else 8
  {
    if |s| < 8 then s else s[..8]
  }

  /** The name `IFC_<type>_<first 8 characters of the decoded GlobalId>`. */
  function GlobalIdName(t: nat, globalId: string): string {
    "IFC_" + NatToString(t) + "_" + Prefix8(Decode(globalId))
  }

  /**
   * ExtractElementProperties' effect on a node name: with a readable type
   * and a non-empty GlobalId (argument 0), a name that is empty or contains
   * `_<id>` is replaced by the GlobalId name; otherwise the name stays.
   */
  function PropertiesName(f: IfcFile, id: nat, name: string): string {
    match LineType(f, id)
    case None => name
    case Some(t) =>
      match DecodedString(f, id, 0)
      case None => name
      case Some(globalId) =>
        if globalId != [] && (name == [] || Contains(name, "_" + NatToString(id))) then GlobalIdName(t, globalId)
        else name
  }

  /** The final name of a hierarchy node. */
  function NodeName(f: IfcFile, id: nat, fallbackName: string): string {
    PropertiesName(f, id, InitialNodeName(f, id, fallbackName))
  }

  lemma ContainsSuffix(a: string, b: string)
    ensures Contains(a + b, b)
  {
    assert (a + b)[|a|..|a| + |b|] == b;
    assert OccursAt(a + b, b, |a|);
    ContainsIff(a + b, b);
  }

  /**
   * Renaming in both directions: a node keeps its first name exactly when no
   * GlobalId replaces it, and a replaced name is the GlobalId name; both
   * fallback forms end in `_<id>`, so they are always replaced when the type
   * and a non-empty GlobalId can be read.
   */
  lemma NodeNameCases(f: IfcFile, id: nat, fallbackName: string)
    ensures var first := InitialNodeName(f, id, fallbackName);
            var replaced := LineType(f, id).Some? && DecodedString(f, id, 0).Some? && DecodedString(f, id, 0).value != []
                            && (first == [] || Contains(first, "_" + NatToString(id)));
            (replaced ==> NodeName(f, id, fallbackName) == GlobalIdName(LineType(f, id).value, DecodedString(f, id, 0).value))
            && (!replaced ==> NodeName(f, id, fallbackName) == first)
    ensures LineType(f, id).Some? && DecodedString(f, id, 0).Some? && DecodedString(f, id, 0).value != []
            && (InitialNodeName(f, id, fallbackName) == TypedFallback(fallbackName, LineType(f, id).value, id)
                || InitialNodeName(f, id, fallbackName) == PlainFallback(fallbackName, id))
            ==> NodeName(f, id, fallbackName) == GlobalIdName(LineType(f, id).value, DecodedString(f, id, 0).value)
  {
    var suffix := "_" + NatToString(id);
    var t := LineType(f, id);
    if t.Some? {
      assert TypedFallback(fallbackName, t.value, id) == (fallbackName + "_" + NatToString(t.value)) + suffix;
      ContainsSuffix(fallbackName + "_" + NatToString(t.value), suffix);
    }
    assert PlainFallback(fallbackName, id) == fallbackName + suffix;
    ContainsSuffix(fallbackName, suffix);
  }

  /**
   * A GlobalId name never contains `IFC_BuildingStorey`: whatever follows
   * `IFC_` is a run of digits, and the GlobalId part is too short to hold
   * the 18 characters after it.
   */
  lemma GlobalIdNameNeverStorey(t: nat, globalId: string)
    ensures !Contains(GlobalIdName(t, globalId), "IFC_BuildingStorey")
  {
    var d := NatToString(t);
    var s := GlobalIdName(t, globalId);
    var pat := "IFC_BuildingStorey";
    assert |s| == 5 + |d| + |Prefix8(Decode(globalId))|;
    assert forall i :: 4 <= i < 4 + |d| ==> s[i] == d[i - 4];
    forall p: nat
      ensures !OccursAt(s, pat, p)
    {
      if p + |pat| <= |s| {
        if p < 4 {
          assert s[p..p + |pat|][4 - p] != pat[4 - p];
        } else {
          assert s[p..p + |pat|][0] != pat[0];
        }
      }
    }
    ContainsIff(s, pat);
  }

  /**
   * A storey whose Name gives no string (the reads fail or yield an empty
   * string) but whose GlobalId is non-empty is renamed from the GlobalId, and
   * so is never found by its `IFC_BuildingStorey` fallback prefix.
   */
  lemma StoreyFallbackRenamed(f: IfcFile, id: nat)
    requires LineType(f, id) == Some(IFCBUILDINGSTOREY)
    requires RawString(f, id, 2) == Some([])
             || (RawString(f, id, 2).None? && (DecodedString(f, id, 2).None? || DecodedString(f, id, 2) == Some([])))
    requires DecodedString(f, id, 0).Some? && DecodedString(f, id, 0).value != []
    ensures NodeName(f, id, "IFC_BuildingStorey") == GlobalIdName(IFCBUILDINGSTOREY, DecodedString(f, id, 0).value)
    ensures !Contains(NodeName(f, id, "IFC_BuildingStorey"), "IFC_BuildingStorey")
  {
    NodeNameCases(f, id, "IFC_BuildingStorey");
    GlobalIdNameNeverStorey(IFCBUILDINGSTOREY, DecodedString(f, id, 0).value);
  }

  /**
   * ExtractElementProperties on a node already in the arena: only that
   * node's name can change.
   */
  method ExtractElementProperties(scene: Scene, f: IfcFile, id: nat, node: nat)
    requires node < |scene.nodes|
    modifies scene
    ensures scene.nodes == old(scene.nodes)[node := old(scene.nodes)[node].(name := PropertiesName(f, id, old(scene.nodes)[node].name))]
    ensures scene.materials == old(scene.materials) && scene.meshes == old(scene.meshes) && scene.root == old(scene.root)
  {
    var elementType := LineType(f, id);
    if elementType.None? {
      return;
    }
    var globalId := DecodedString(f, id, 0);
    if globalId.None? {
      return;
    }
    var name := scene.nodes[node].name;
    if globalId.value != [] {
      if name == [] || FindFrom(name, "_" + NatToString(id), 0).Some? {
        var decodedGlobalId := Decode(globalId.value);
        var newName := "IFC_" + NatToString(elementType.value) + "_" + Prefix8(decodedGlobalId);
        scene.nodes := scene.nodes[node := scene.nodes[node].(name := newName)];
      }
    }
  }

  /** The first half of CreateNodeFromIFCElement: the name read from the element's Name argument, or a fallback. */
  method ReadNodeName(f: IfcFile, id: nat, fallbackName: string) returns (name: string)
    ensures name == InitialNodeName(f, id, fallbackName)
  {
    var elementType := LineType(f, id);
    if elementType.None? {
      name := fallbackName + "_" + NatToString(id);
    } else {
      var nameArgumentIndex := 2;
      if elementType.value == 3856911033 {
        nameArgumentIndex := 7;
      }
      var rawStringView := RawString(f, id, nameArgumentIndex);
      if rawStringView.Some? {
        if rawStringView.value != [] {
          name := Decode(rawStringView.value);
        } else {
          name := fallbackName + "_" + NatToString(elementType.value) + "_" + NatToString(id);
        }
      } else {
        var elementName := DecodedString(f, id, nameArgumentIndex);
        if elementName.Some? {
          if elementName.value != [] {
            name := Decode(elementName.value);
          } else {
            name := fallbackName + "_" + NatToString(elementType.value) + "_" + NatToString(id);
          }
        } else {
          name := fallbackName + "_" + NatToString(id);
        }
      }
    }
  }

  /**
   * CreateNodeFromIFCElement: a fresh node at the end of the arena, with no
   * parent, children, meshes or metadata, named as the element says.
   */
  method CreateNodeFromIFCElement(scene: Scene, f: IfcFile, id: nat, fallbackName: string) returns (node: nat)
    modifies scene
    ensures node == |old(scene.nodes)|
    ensures scene.nodes == old(scene.nodes) + [NewNode(NodeName(f, id, fallbackName))]
    ensures scene.materials == old(scene.materials) && scene.meshes == old(scene.meshes) && scene.root == old(scene.root)
  {
    var name := ReadNodeName(f, id, fallbackName);
    node := |scene.nodes|;
    scene.nodes := scene.nodes + [NewNode(name)];
    ExtractElementProperties(scene, f, id, node);
  }
}
