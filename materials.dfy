/**
 * The material table built by ExtractMaterials: one material per authored
 * IFC material definition, then one per surface style not already present,
 * all indexed by express id through `materialIDToIndex`.
 */
module Materials {
  import opened Common
  import opened IfcString
  import opened SceneTypes
  import opened ImporterCore

  /** Web-IFC schema code of IFCSURFACESTYLE. */
  const IFCSURFACESTYLE: nat := 1300840506

  const DefaultGrey: Rgba := Rgba(0.8, 0.8, 0.8, 1.0)
  const DefaultSpecular: Rgb := Rgb(0.2, 0.2, 0.2)

  /** CreateMaterialFromColor: a Phong material derived from one sRGB colour. */
  function CreateMaterialFromColor(color: Rgba, name: string): (m: Material)
    ensures m.name == name && m.shading == Some(Phong)
    ensures m.diffuse.FromSrgb? && m.diffuse.srgb == color && m.diffuse.scale == 1.0
    ensures m.baseColor == Some(m.diffuse)
    ensures m.opacity == Some(color.a)
    ensures m.ambient == Some(FromSrgb(color, 0.1 * m.diffuse.scale))
    ensures m.specular == DefaultSpecular && m.shininess == 64.0
    ensures m.metallic == 0.0 && m.roughness == 1.0
  {
    Material(name, Some(Phong), FromSrgb(color, 1.0), DefaultSpecular, 64.0,
             Some(color.a), Some(FromSrgb(color, 0.1)), Some(FromSrgb(color, 1.0)), 0.0, 1.0)
  }

  /** The grey material named IFC_Default used as a fallback slot. */
  function DefaultMaterial(): Material {
    CreateMaterialFromColor(DefaultGrey, "IFC_Default")
  }

  /** std::clamp(x, 0, 1). */
  function Clamp01(x: real): (y: real)
    ensures 0.0 <= y <= 1.0
    ensures 0.0 <= x <= 1.0 ==> y == x
    ensures x < 0.0 ==> y == 0.0
    ensures x > 1.0 ==> y == 1.0
  {
    if x < 0.0 then 0.0 else if x > 1.0 then 1.0 else x
  }

  /** The three GetDoubleArgument reads of an IFCCOLOURRGB line; unreadable if any of them throws. */
  datatype RgbRead = RgbValues(red: real, green: real, blue: real) | RgbUnreadable

  /** Argument 0 of an IFCSURFACESTYLERENDERING line. */
  datatype SurfaceColour =
    | ColourRef(rgb: RgbRead)     // a REF token: the referenced IFCCOLOURRGB line
    | NotARef                     // any other token
    | SurfaceColourUnreadable     // moving to the argument or reading the reference throws

  /**
   * One (definition, property) pair of a material definition, seen through
   * its line type. OtherDefinition covers every other line type and a line
   * whose type cannot be read.
   */
  datatype Definition =
    | ColourRgb(rgb: RgbRead)
    | SurfaceStyleRendering(surfaceColour: SurfaceColour, transparency: Option<real>)
    | OtherDefinition

  /** ExtractColorFromRGB: all three channels clamped and alpha 1, or the colour unchanged when a read throws. */
  function ExtractColorFromRGB(read: RgbRead, current: Rgba): (c: Rgba)
    ensures read.RgbUnreadable? ==> c == current
    ensures read.RgbValues? ==>
              c.r == Clamp01(read.red) && c.g == Clamp01(read.green) && c.b == Clamp01(read.blue) && c.a == 1.0
  {
    match read
    case RgbUnreadable => current
    case RgbValues(r, g, b) => Rgba(Clamp01(r), Clamp01(g), Clamp01(b), 1.0)
  }

  /**
   * ExtractRenderingProperties as it affects the diffuse colour. When argument
   * 0 cannot be read the whole call is abandoned, transparency included.
   */
  function ExtractRenderingProperties(surface: SurfaceColour, transparency: Option<real>, diffuse: Rgba): Rgba {
    if surface.SurfaceColourUnreadable? then diffuse
    else
      var d := if surface.ColourRef? then ExtractColorFromRGB(surface.rgb, diffuse) else diffuse;
      if transparency.Some? then d.(a := 1.0 - Clamp01(transparency.value)) else d
  }

  /** The effect of one definition on the diffuse colour. */
  function ApplyDefinition(diffuse: Rgba, d: Definition): Rgba {
    match d
    case ColourRgb(rgb) => ExtractColorFromRGB(rgb, diffuse)
    case SurfaceStyleRendering(surface, t) => ExtractRenderingProperties(surface, t, diffuse)
    case OtherDefinition => diffuse
  }

  /** The diffuse colour after the definitions, applied in order. */
  function ApplyDefinitions(diffuse: Rgba, defs: seq<Definition>): Rgba
    decreases |defs|
  {
    if |defs| == 0 then diffuse
    else ApplyDefinition(ApplyDefinitions(diffuse, defs[..|defs| - 1]), defs[|defs| - 1])
  }

  /** The definition sets all three colour channels. */
  predicate WritesRgb(d: Definition) {
    (d.ColourRgb? && d.rgb.RgbValues?)
    || (d.SurfaceStyleRendering? && d.surfaceColour.ColourRef? && d.surfaceColour.rgb.RgbValues?)
  }

  predicate InUnitRange(c: Rgba) {
    0.0 <= c.r <= 1.0 && 0.0 <= c.g <= 1.0 && 0.0 <= c.b <= 1.0 && 0.0 <= c.a <= 1.0
  }

  predicate SameRgb(c: Rgba, d: Rgba) {
    c.r == d.r && c.g == d.g && c.b == d.b
  }

  lemma {:induction false} ApplyDefinitionsAppend(c: Rgba, xs: seq<Definition>, ys: seq<Definition>)
    ensures ApplyDefinitions(c, xs + ys) == ApplyDefinitions(ApplyDefinitions(c, xs), ys)
    decreases |ys|
  {
    if |ys| == 0 {
      assert xs + ys == xs;
    } else {
      assert (xs + ys)[..|xs + ys| - 1] == xs + ys[..|ys| - 1];
      ApplyDefinitionsAppend(c, xs, ys[..|ys| - 1]);
    }
  }

  /** Starting from a colour in [0,1], every channel stays in [0,1] whatever the definitions say. */
  lemma {:induction false} DiffuseStaysInUnitRange(c: Rgba, defs: seq<Definition>)
    requires InUnitRange(c)
    ensures InUnitRange(ApplyDefinitions(c, defs))
    decreases |defs|
  {
    if |defs| > 0 {
      DiffuseStaysInUnitRange(c, defs[..|defs| - 1]);
    }
  }

  /** A definition that writes no colour channel leaves red, green and blue alone. */
  lemma {:induction false} NonWritersKeepRgb(c: Rgba, post: seq<Definition>)
    requires forall i :: 0 <= i < |post| ==> !WritesRgb(post[i])
    ensures SameRgb(ApplyDefinitions(c, post), c)
    decreases |post|
  {
    if |post| > 0 {
      NonWritersKeepRgb(c, post[..|post| - 1]);
    }
  }

  /** The last colour definition wins: later definitions that write no colour cannot change its channels. */
  lemma LastColourWins(c: Rgba, pre: seq<Definition>, red: real, green: real, blue: real, post: seq<Definition>)
    requires forall i :: 0 <= i < |post| ==> !WritesRgb(post[i])
    ensures SameRgb(ApplyDefinitions(c, pre + [ColourRgb(RgbValues(red, green, blue))] + post),
                    Rgba(Clamp01(red), Clamp01(green), Clamp01(blue), 1.0))
  {
    var w := [ColourRgb(RgbValues(red, green, blue))];
    ApplyDefinitionsAppend(c, pre + w, post);
    ApplyDefinitionsAppend(c, pre, w);
    NonWritersKeepRgb(ApplyDefinitions(c, pre + w), post);
  }

  /** A transparency sets only alpha, to one minus the clamped value. */
  lemma TransparencySetsOnlyAlpha(c: Rgba, t: real, defs: seq<Definition>)
    ensures ApplyDefinitions(c, defs + [SurfaceStyleRendering(NotARef, Some(t))])
         == ApplyDefinitions(c, defs).(a := 1.0 - Clamp01(t))
  {
    ApplyDefinitionsAppend(c, defs, [SurfaceStyleRendering(NotARef, Some(t))]);
    assert ApplyDefinitions(ApplyDefinitions(c, defs), [SurfaceStyleRendering(NotARef, Some(t))])
        == ApplyDefinition(ApplyDefinitions(c, defs), SurfaceStyleRendering(NotARef, Some(t)));
  }

  /**
   * ExtractMaterialProperties: runs the definitions over the default diffuse
   * colour and writes diffuse, specular, shininess, metallic and roughness.
   * Specular and shininess keep their defaults: no definition writes them.
   */
  method ExtractMaterialProperties(defs: seq<Definition>, m: Material) returns (r: Material)
    ensures r == m.(diffuse := Exact(ApplyDefinitions(DefaultGrey, defs)), specular := DefaultSpecular,
                    shininess := 32.0, metallic := 0.0, roughness := 1.0)
  {
    var diffuse := DefaultGrey;
    var specular := DefaultSpecular;
    var shininess := 32.0;
    for i := 0 to |defs|
      invariant diffuse == ApplyDefinitions(DefaultGrey, defs[..i])
    {
      assert defs[..i + 1][..i] == defs[..i];
      match defs[i]
      case ColourRgb(rgb) =>
        diffuse := ExtractColorFromRGB(rgb, diffuse);
      case SurfaceStyleRendering(surface, t) =>
        diffuse := ExtractRenderingProperties(surface, t, diffuse);
      case OtherDefinition =>
    }
    assert defs[..|defs|] == defs;
    r := m.(diffuse := Exact(diffuse), specular := specular, shininess := shininess,
            metallic := 0.0, roughness := 1.0);
  }

  /**
   * The name given to a material or style: `prefix` followed by the express
   * id, unless argument 0 is a non-empty string, which is then decoded.
   */
  function NameFromArgument(prefix: string, id: nat, arg: Option<string>): string {
    if arg.Some? && arg.value != [] then Decode(arg.value) else prefix + NatToString(id)
  }

  /** Two fallback names with one prefix coincide only for one express id. */
  lemma FallbackNamesDistinct(prefix: string, id1: nat, id2: nat)
    requires prefix + NatToString(id1) == prefix + NatToString(id2)
    ensures id1 == id2
  {
    assert (prefix + NatToString(id1))[|prefix|..] == NatToString(id1);
    assert (prefix + NatToString(id2))[|prefix|..] == NatToString(id2);
    NatToStringInjective(id1, id2);
  }

  /** The material ExtractSingleIFCMaterial returns for a name and a list of definitions. */
  function AuthoredMaterial(name: string, defs: seq<Definition>): (m: Material)
    ensures m.name == name && m.shading == Some(Phong)
    ensures m.diffuse == Exact(ApplyDefinitions(DefaultGrey, defs)) && InUnitRange(m.diffuse.c)
    ensures m.specular == DefaultSpecular && m.shininess == 32.0
    ensures m.opacity.None? && m.ambient.None? && m.baseColor.None?
  {
    DiffuseStaysInUnitRange(DefaultGrey, defs);
    Material(name, Some(Phong), Exact(ApplyDefinitions(DefaultGrey, defs)), DefaultSpecular, 32.0,
             None, None, None, 0.0, 1.0)
  }

  /** ExtractSingleIFCMaterial: name from argument 0, Phong shading, then the definitions. */
  method ExtractSingleIFCMaterial(f: IfcFile, materialID: nat, defs: seq<Definition>) returns (m: Material)
    ensures m == AuthoredMaterial(NameFromArgument("IFC_Material_", materialID, DecodedString(f, materialID, 0)), defs)
  {
    var name := "IFC_Material_" + NatToString(materialID);
    var arg := DecodedString(f, materialID, 0);
    if arg.Some? && arg.value != [] {
      name := DecodeIFCString(arg.value);
    }
    var blank := Material(name, Some(Phong), Exact(DefaultGrey), DefaultSpecular, 0.0, None, None, None, 0.0, 0.0);
    m := ExtractMaterialProperties(defs, blank);
  }

  /** The surface-style material: fixed grey with the style's name and no shading model. */
  function SurfaceStyleMaterial(name: string): Material {
    Material(name, None, Exact(DefaultGrey), DefaultSpecular, 32.0, None, None, None, 0.0, 1.0)
  }

  /** The materials vector and materialIDToIndex, as the extraction passes build them. */
  datatype MaterialTable = MaterialTable(materials: seq<Material>, idToIndex: map<nat, nat>)

  /**
   * Every express id points at its own slot and every slot has an id: the
   * map is a bijection between its keys and the indices of the vector.
   */
  predicate TableValid(t: MaterialTable) {
    (forall id :: id in t.idToIndex ==> t.idToIndex[id] < |t.materials|)
    && (forall a, b :: a in t.idToIndex && b in t.idToIndex && a != b ==> t.idToIndex[a] != t.idToIndex[b])
    && |t.idToIndex| == |t.materials|
  }

  /** One material definition as Web-IFC lists it: its express id and its (definition, property) pairs. */
  datatype MaterialDefinition = MaterialDefinition(materialID: nat, definitions: seq<Definition>)

  /** The effect of one material definition on the table. */
  function AddAuthored(f: IfcFile, t: MaterialTable, md: MaterialDefinition): (t': MaterialTable)
    ensures |t'.materials| == |t.materials| + 1 && t'.materials[..|t.materials|] == t.materials
    ensures t'.materials[|t.materials|].name
         == NameFromArgument("IFC_Material_", md.materialID, DecodedString(f, md.materialID, 0))
    ensures t'.idToIndex == t.idToIndex[md.materialID := |t.materials|]
  {
    var m := AuthoredMaterial(NameFromArgument("IFC_Material_", md.materialID, DecodedString(f, md.materialID, 0)),
                              md.definitions);
    MaterialTable(t.materials + [m], t.idToIndex[md.materialID := |t.materials|])
  }

  /** The first loop of ExtractIFCMaterials, over the definitions in Web-IFC's order. */
  function AddAllAuthored(f: IfcFile, t: MaterialTable, mds: seq<MaterialDefinition>): MaterialTable
    decreases |mds|
  {
    if |mds| == 0 then t else AddAuthored(f, AddAllAuthored(f, t, mds[..|mds| - 1]), mds[|mds| - 1])
  }

  /** ProcessSurfaceStyle: a style whose id is already a key adds nothing; otherwise it appends one material. */
  function ProcessSurfaceStyle(f: IfcFile, t: MaterialTable, styleID: nat): (t': MaterialTable)
    ensures styleID in t.idToIndex ==> t' == t
    ensures styleID !in t.idToIndex ==>
              t'.materials == t.materials
                + [SurfaceStyleMaterial(NameFromArgument("IFC_SurfaceStyle_", styleID, DecodedString(f, styleID, 0)))]
              && t'.idToIndex == t.idToIndex[styleID := |t.materials|]
  {
    if styleID in t.idToIndex then t
    else
      var name := NameFromArgument("IFC_SurfaceStyle_", styleID, DecodedString(f, styleID, 0));
      MaterialTable(t.materials + [SurfaceStyleMaterial(name)], t.idToIndex[styleID := |t.materials|])
  }

  /** The inner loop of StyledItemsOutcome: only lines typed IFCSURFACESTYLE are processed. */
  function StylesOutcome(f: IfcFile, t: MaterialTable, styles: seq<(nat, nat)>): MaterialTable
    decreases |styles|
  {
    if |styles| == 0 then t
    else
      var t0 := StylesOutcome(f, t, styles[..|styles| - 1]);
      var styleID := styles[|styles| - 1].0;
      if LineType(f, styleID) == Some(IFCSURFACESTYLE) then ProcessSurfaceStyle(f, t0, styleID) else t0
  }

  /** StyledItemsOutcome over (item id, styles) pairs in Web-IFC's order. */
  function StyledItemsOutcome(f: IfcFile, t: MaterialTable, items: seq<(nat, seq<(nat, nat)>)>): MaterialTable
    decreases |items|
  {
    if |items| == 0 then t else StylesOutcome(f, StyledItemsOutcome(f, t, items[..|items| - 1]), items[|items| - 1].1)
  }

  predicate DistinctIds(mds: seq<MaterialDefinition>) {
    forall i, j :: 0 <= i < j < |mds| ==> mds[i].materialID != mds[j].materialID
  }

  lemma TableValidExtend(t: MaterialTable, id: nat, m: Material)
    requires TableValid(t) && id !in t.idToIndex
    ensures TableValid(MaterialTable(t.materials + [m], t.idToIndex[id := |t.materials|]))
  {
    assert t.idToIndex[id := |t.materials|].Keys == t.idToIndex.Keys + {id};
  }

  /** An id that no definition carries is not added by the authored pass. */
  lemma {:induction false} AuthoredAddsOnlyTheirIds(f: IfcFile, t: MaterialTable, mds: seq<MaterialDefinition>, id: nat)
    requires id !in t.idToIndex
    requires forall i :: 0 <= i < |mds| ==> mds[i].materialID != id
    ensures id !in AddAllAuthored(f, t, mds).idToIndex
    decreases |mds|
  {
    if |mds| > 0 {
      AuthoredAddsOnlyTheirIds(f, t, mds[..|mds| - 1], id);
    }
  }

  /** Authored materials with distinct ids, added to a valid table holding none of them, keep it valid. */
  lemma {:induction false} AddAllAuthoredValid(f: IfcFile, t: MaterialTable, mds: seq<MaterialDefinition>)
    requires TableValid(t) && DistinctIds(mds)
    requires forall i :: 0 <= i < |mds| ==> mds[i].materialID !in t.idToIndex
    ensures TableValid(AddAllAuthored(f, t, mds))
    decreases |mds|
  {
    if |mds| > 0 {
      var init := mds[..|mds| - 1];
      AddAllAuthoredValid(f, t, init);
      var t0 := AddAllAuthored(f, t, init);
      var md := mds[|mds| - 1];
      forall i | 0 <= i < |init| ensures init[i].materialID != md.materialID {
        assert mds[i].materialID != mds[|mds| - 1].materialID;
      }
      AuthoredAddsOnlyTheirIds(f, t, init, md.materialID);
      TableValidExtend(t0, md.materialID,
        AuthoredMaterial(NameFromArgument("IFC_Material_", md.materialID, DecodedString(f, md.materialID, 0)),
                         md.definitions));
    }
  }

  /** Surface styles keep the table valid: a known id is skipped, a new one gets a new slot. */
  lemma {:induction false} ProcessStylesValid(f: IfcFile, t: MaterialTable, styles: seq<(nat, nat)>)
    requires TableValid(t)
    ensures TableValid(StylesOutcome(f, t, styles))
    ensures t.idToIndex.Keys <= StylesOutcome(f, t, styles).idToIndex.Keys
    ensures t.materials <= StylesOutcome(f, t, styles).materials
    decreases |styles|
  {
    if |styles| > 0 {
      ProcessStylesValid(f, t, styles[..|styles| - 1]);
      var t0 := StylesOutcome(f, t, styles[..|styles| - 1]);
      var styleID := styles[|styles| - 1].0;
      if LineType(f, styleID) == Some(IFCSURFACESTYLE) && styleID !in t0.idToIndex {
        TableValidExtend(t0, styleID,
          SurfaceStyleMaterial(NameFromArgument("IFC_SurfaceStyle_", styleID, DecodedString(f, styleID, 0))));
      }
    }
  }

  lemma {:induction false} ProcessStyledItemsValid(f: IfcFile, t: MaterialTable, items: seq<(nat, seq<(nat, nat)>)>)
    requires TableValid(t)
    ensures TableValid(StyledItemsOutcome(f, t, items))
    ensures t.idToIndex.Keys <= StyledItemsOutcome(f, t, items).idToIndex.Keys
    ensures t.materials <= StyledItemsOutcome(f, t, items).materials
    decreases |items|
  {
    if |items| > 0 {
      ProcessStyledItemsValid(f, t, items[..|items| - 1]);
      ProcessStylesValid(f, StyledItemsOutcome(f, t, items[..|items| - 1]), items[|items| - 1].1);
    }
  }

  /** A surface style whose id an authored material already holds never replaces that material. */
  lemma {:induction false} StylesNeverOverrideKnownIds(f: IfcFile, t: MaterialTable, styles: seq<(nat, nat)>, id: nat)
    requires id in t.idToIndex
    ensures id in StylesOutcome(f, t, styles).idToIndex
    ensures StylesOutcome(f, t, styles).idToIndex[id] == t.idToIndex[id]
    ensures t.materials <= StylesOutcome(f, t, styles).materials
    decreases |styles|
  {
    if |styles| > 0 {
      StylesNeverOverrideKnownIds(f, t, styles[..|styles| - 1], id);
    }
  }

  /** ProcessStyledItems: each style of each item, in Web-IFC's order; only IFCSURFACESTYLE lines count. */
  method ProcessStyledItems(f: IfcFile, items: seq<(nat, seq<(nat, nat)>)>, t0: MaterialTable)
    returns (t: MaterialTable)
    ensures t == StyledItemsOutcome(f, t0, items)
  {
    t := t0;
    for i := 0 to |items|
      invariant t == StyledItemsOutcome(f, t0, items[..i])
    {
      assert items[..i + 1][..i] == items[..i];
      var styles := items[i].1;
      ghost var before := t;
      for j := 0 to |styles|
        invariant t == StylesOutcome(f, before, styles[..j])
      {
        assert styles[..j + 1][..j] == styles[..j];
        var styleID := styles[j].0;
        if LineType(f, styleID) == Some(IFCSURFACESTYLE) {
          t := ProcessSurfaceStyle(f, t, styleID);
        }
      }
      assert styles[..|styles|] == styles;
    }
    assert items[..|items|] == items;
  }

  /**
   * ExtractIFCMaterials: every material definition in order, then every
   * styled item, appending to the vector and writing the shared id map.
   */
  method ExtractIFCMaterials(f: IfcFile, mds: seq<MaterialDefinition>, items: seq<(nat, seq<(nat, nat)>)>,
                             materials0: seq<Material>, idToIndex0: map<nat, nat>)
    returns (materials: seq<Material>, idToIndex: map<nat, nat>)
    ensures MaterialTable(materials, idToIndex)
         == StyledItemsOutcome(f, AddAllAuthored(f, MaterialTable(materials0, idToIndex0), mds), items)
  {
    materials, idToIndex := materials0, idToIndex0;
    for i := 0 to |mds|
      invariant MaterialTable(materials, idToIndex) == AddAllAuthored(f, MaterialTable(materials0, idToIndex0), mds[..i])
    {
      assert mds[..i + 1][..i] == mds[..i];
      var md := mds[i];
      var material := ExtractSingleIFCMaterial(f, md.materialID, md.definitions);
      var materialIndex := |materials|;
      materials := materials + [material];
      idToIndex := idToIndex[md.materialID := materialIndex];
    }
    assert mds[..|mds|] == mds;
    var t := ProcessStyledItems(f, items, MaterialTable(materials, idToIndex));
    materials, idToIndex := t.materials, t.idToIndex;
  }

  /** After extraction from scratch the id map is a bijection onto the material slots, authored ids first. */
  lemma ExtractedTableValid(f: IfcFile, mds: seq<MaterialDefinition>, items: seq<(nat, seq<(nat, nat)>)>)
    requires DistinctIds(mds)
    ensures var t := StyledItemsOutcome(f, AddAllAuthored(f, MaterialTable([], map[]), mds), items);
            TableValid(t)
            && (forall i :: 0 <= i < |mds| ==> mds[i].materialID in t.idToIndex && t.idToIndex[mds[i].materialID] == i)
  {
    var t0 := MaterialTable([], map[]);
    AddAllAuthoredValid(f, t0, mds);
    var ta := AddAllAuthored(f, t0, mds);
    ProcessStyledItemsValid(f, ta, items);
    forall i | 0 <= i < |mds|
      ensures mds[i].materialID in ta.idToIndex && ta.idToIndex[mds[i].materialID] == i
    {
      AuthoredIndex(f, t0, mds, i);
    }
    forall i | 0 <= i < |mds|
      ensures var t := StyledItemsOutcome(f, ta, items);
              mds[i].materialID in t.idToIndex && t.idToIndex[mds[i].materialID] == i
    {
      StyledItemsKeepKnownIds(f, ta, items, mds[i].materialID);
    }
  }

  /** Every id of the map points inside the material vector (duplicate ids included). */
  predicate IdsInRange(t: MaterialTable) {
    forall id :: id in t.idToIndex ==> t.idToIndex[id] < |t.materials|
  }

  lemma {:induction false} AuthoredInRange(f: IfcFile, t: MaterialTable, mds: seq<MaterialDefinition>)
    requires IdsInRange(t)
    ensures IdsInRange(AddAllAuthored(f, t, mds))
    decreases |mds|
  {
    if |mds| > 0 {
      AuthoredInRange(f, t, mds[..|mds| - 1]);
    }
  }

  lemma {:induction false} StylesInRange(f: IfcFile, t: MaterialTable, styles: seq<(nat, nat)>)
    requires IdsInRange(t)
    ensures IdsInRange(StylesOutcome(f, t, styles))
    decreases |styles|
  {
    if |styles| > 0 {
      StylesInRange(f, t, styles[..|styles| - 1]);
    }
  }

  /** Whatever Web-IFC lists, the extracted map only points at existing slots. */
  lemma {:induction false} StyledItemsInRange(f: IfcFile, t: MaterialTable, items: seq<(nat, seq<(nat, nat)>)>)
    requires IdsInRange(t)
    ensures IdsInRange(StyledItemsOutcome(f, t, items))
    decreases |items|
  {
    if |items| > 0 {
      StyledItemsInRange(f, t, items[..|items| - 1]);
      StylesInRange(f, StyledItemsOutcome(f, t, items[..|items| - 1]), items[|items| - 1].1);
    }
  }

  lemma {:induction false} StyledItemsKeepKnownIds(f: IfcFile, t: MaterialTable, items: seq<(nat, seq<(nat, nat)>)>, id: nat)
    requires id in t.idToIndex
    ensures id in StyledItemsOutcome(f, t, items).idToIndex
    ensures StyledItemsOutcome(f, t, items).idToIndex[id] == t.idToIndex[id]
    decreases |items|
  {
    if |items| > 0 {
      StyledItemsKeepKnownIds(f, t, items[..|items| - 1], id);
      StylesNeverOverrideKnownIds(f, StyledItemsOutcome(f, t, items[..|items| - 1]), items[|items| - 1].1, id);
    }
  }

  /** The i-th authored material (distinct ids) lands in slot |initial| + i. */
  lemma {:induction false} AuthoredIndex(f: IfcFile, t: MaterialTable, mds: seq<MaterialDefinition>, i: nat)
    requires DistinctIds(mds) && i < |mds|
    ensures mds[i].materialID in AddAllAuthored(f, t, mds).idToIndex
    ensures AddAllAuthored(f, t, mds).idToIndex[mds[i].materialID] == |t.materials| + i
    ensures |AddAllAuthored(f, t, mds).materials| == |t.materials| + |mds|
    decreases |mds|
  {
    var init := mds[..|mds| - 1];
    if i < |mds| - 1 {
      AuthoredIndex(f, t, init, i);
      assert mds[i].materialID != mds[|mds| - 1].materialID;
    } else {
      AuthoredLength(f, t, init);
    }
  }

  lemma {:induction false} AuthoredLength(f: IfcFile, t: MaterialTable, mds: seq<MaterialDefinition>)
    ensures |AddAllAuthored(f, t, mds).materials| == |t.materials| + |mds|
    decreases |mds|
  {
    if |mds| > 0 {
      AuthoredLength(f, t, mds[..|mds| - 1]);
    }
  }

  /**
   * ExtractMaterials: clears the id map and extracts the table into the
   * scene. `modelOpen` is false when the model's loader cannot be obtained;
   * the catch block then installs the single IFC_Default material.
   */
  method ExtractMaterials(imp: Importer, scene: Scene, f: IfcFile, modelOpen: bool,
                          mds: seq<MaterialDefinition>, items: seq<(nat, seq<(nat, nat)>)>)
    modifies imp, scene
    ensures modelOpen ==>
              MaterialTable(scene.materials, imp.materialIDToIndex)
              == StyledItemsOutcome(f, AddAllAuthored(f, MaterialTable([], map[]), mds), items)
    ensures !modelOpen ==> scene.materials == [DefaultMaterial()] && imp.materialIDToIndex == map[]
    ensures scene.meshes == old(scene.meshes) && scene.nodes == old(scene.nodes) && scene.root == old(scene.root)
    ensures imp.settings == old(imp.settings) && imp.meshToIFCMetadata == old(imp.meshToIFCMetadata)
    ensures imp.elementToStoreyMap == old(imp.elementToStoreyMap) && imp.currentModelID == old(imp.currentModelID)
  {
    imp.materialIDToIndex := map[];
    var materials: seq<Material> := [];
    if modelOpen {
      var ids;
      materials, ids := ExtractIFCMaterials(f, mds, items, materials, imp.materialIDToIndex);
      imp.materialIDToIndex := ids;
    } else {
      if |materials| == 0 {
        materials := materials + [CreateMaterialFromColor(DefaultGrey, "IFC_Default")];
      }
    }
    scene.materials := materials;
  }
}
