# IFC importer scene reconstruction, in Dafny

This project models how Assimp's Web-IFC based IFC importer (`IFCImporter`) builds an
Assimp scene from an IFC model that Web-IFC has already parsed. It proves properties of
that model. The modelled steps:

- **Settings and reading.** `CanRead`, `SetupProperties`, and the in-memory read
  callback that feeds the file to Web-IFC.
- **Spatial containment.** The element → spatial-structure index built from the
  `IfcRelContainedInSpatialStructure` relations.
- **Materials.** The material table: authored IFC materials, then surface styles, indexed
  by express id through `materialIDToIndex`.
- **Geometry.** Each element's placed geometries are merged into one mesh. The mesh is
  split per material when its faces disagree. Colour materials are cached by their
  `RRGGBBAA` key, and `IFC_Default` is inserted in slot 0 when a mesh uses slot 0.
- **Names.** `DecodeIFCString` (the importer's `\S\` escape table), element names and
  node names, including the GlobalId renaming.
- **Node tree.** The Project → Site → Building → Storey → Space tree, the
  node searches, the node count, and the assignment of one leaf node per mesh.

aiNode pointers become indices into an arena (`SceneTypes.Scene.nodes`). Creating a node
appends it. A node the importer deletes (the initial root, once a project replaces it)
stays in the arena, unreachable from `root`. Strings are sequences of characters, one per
byte of the C++ `std::string`. Everything Web-IFC answers becomes an input value:

- `IfcFile` holds the lines, the line types and the string arguments. A missing entry
  stands for a read that throws.
- Geometry arrives as `PlacedGeometry` buffers.
- Relations and styles arrive as sequences, in the order Web-IFC yields them.

Main results:

- `SceneGraph.LoadModel` leaves a well-formed tree. Well formed means that children come
  after their parent in the arena, point back to it, and are not listed twice. The preorder
  walk from the scene root meets every scene mesh exactly once and no other mesh index
  (`MeshPlacement.TreeMeshes`, `MeshPlacement.AssignedTreeMeshes`, `SceneGraph.FlatTreeMeshes`,
  `SceneGraph.HierarchyEachMeshOnce`). This is the collection that the importer's unit test makes from `mRootNode`
  (test/unit/utIFCImportExport.cpp:1733-1751).
  The whole arena, unreachable slots included, also references each mesh exactly once
  (`MeshPlacement.AssignMeshesPlacesEachMeshOnce`).
- The material id map is a bijection onto the material slots (`Materials.ExtractedTableValid`).
- Every extracted mesh is valid against the final material array. Slot-0 meshes resolve to
  `IFC_Default` (`GeometryExtraction.FinishValid`).
- Splitting partitions the faces by material and keeps each corner's position
  (`MeshSplit.SplitMeshesValid`).
- Decoding removes every escape token and is idempotent (`IfcString.DecodeRemovesAllTokens`,
  `IfcString.DecodeIdempotent`).
- The spatial tree has 1 + S·(1 + B·(1 + T·(1 + P))) nodes (`SpatialHierarchy.HierarchyCount`).

Behaviours of the code that the model keeps, and that a reader might not expect:

- Every level of the spatial tree lists all lines of its type, not the ones the parent
  contains. So every site receives every building, every building every storey, and
  every storey every space.
- The storey lookup of `AssignMeshesToHierarchy` returns the first node in preorder
  whose name contains `IFC_BuildingStorey`, or contains `Erdgeschoss` when the storey id
  is 596, or contains `Dachgeschoss` when the storey id is 211330. Apart from those two
  ids, the first node with `IFC_BuildingStorey` in its name is returned whatever the
  storey id. A storey renamed from its GlobalId never carries that text
  (`NodeNaming.GlobalIdNameNeverStorey`, `NodeNaming.StoreyFallbackRenamed`). Its meshes
  then go to the first such node, or to the root.
- `FindSemanticParentForUnassignedItems` returns while handling the root's first child,
  and it may pick a mesh leaf added by the storey pass.
- Its `IFC_Building` test is implied by its `Building` test (`SceneTree.IsBuildingNameIff`).
- At the end of `ExtractGeometry` a mesh on slot 0 ends on `IFC_Default`, even when slot 0
  held a real material before the insertion (`ColorMaterials.InsertedDefaultResolution`).
- The split path merges again without skipping empty buffers. Such buffers can still
  create colour materials.
- When `GetLineType` throws for an element, the element's meshes are dropped. The colour
  materials created for them stay.
- `\S\c` and `\S\C` decode to ö and Ö. Clause 6.4.3 of ISO 10303-21 would give ã and Ã.
  The model follows the code.
- The nested loops of `BuildIFCSpatialHierarchy` are modelled as the recursion
  `BuildLevel`/`BuildChildren` over the list of levels. It builds the same nodes in the
  same order.

## Model

| member | source | states |
|---|---|---|
| Common.FindFrom | code/AssetLib/IFC/IFCLoader.cpp:1028 | `std::string::find` from a position: the leftmost occurrence at or after it, or none |
| Common.NatToString | code/AssetLib/IFC/IFCLoader.cpp:720 | `std::to_string` of an unsigned id: at least one decimal digit, no leading zero |
| Common.ParseNatToString | code/AssetLib/IFC/IFCLoader.cpp:720 | the digits `std::to_string` writes read back to the number |
| Common.NatToStringInjective | code/AssetLib/IFC/IFCLoader.cpp:2037 | different ids print as different strings |
| VrmlExtension.FindLastOf | code/AssetLib/VRML/VrmlConverter.cpp:57 | `find_last_of('.')`: the last position holding the character, or none when it is absent |
| VrmlExtension.Extension | code/AssetLib/VRML/VrmlConverter.cpp:57-61 | no extension exactly when the path has no '.'; otherwise the text after the last '.' |
| VrmlExtension.IsFileWrlVrml97Ext | code/AssetLib/VRML/VrmlConverter.cpp:56-66 | accepts exactly the paths whose text after the last '.' is `wrl` in any letter case |
| VrmlExtension.IsFileX3dvClassicVrmlExt | code/AssetLib/VRML/VrmlConverter.cpp:68-78 | accepts exactly the paths whose text after the last '.' is `x3dv` in any letter case, with a literal `3` |
| VrmlExtension.NoDotIsRejected | code/AssetLib/VRML/VrmlConverter.cpp:56-78 | a path without '.' is neither kind of VRML file |
| VrmlExtension.LastSuffixDecides | code/AssetLib/VRML/VrmlConverter.cpp:56-78 | for any stem and any suffix without '.', the suffix is the extension and alone decides both tests: `wrl`, or `x3dv` with a literal `3`, in any letter case |
| VrmlExtension.OnlyLastSuffixCounts | code/AssetLib/VRML/VrmlConverter.cpp:56-78 | illustration: only the last suffix counts (`a.wrl.txt` is rejected, `a.txt.wrl` accepted); case is ignored except for the `3` |
| VrmlExtension.NeverBoth | code/AssetLib/VRML/VrmlConverter.cpp:56-78 | no path passes both tests |
| VrmlExtension.ConvertVrmlFileToX3dXml | code/AssetLib/VRML/VrmlConverter.cpp:90-143 | a path that is neither kind gives an empty stream; otherwise the stream is the translated document |
| ImporterCore.DefaultSettings | code/AssetLib/IFC/IFCLoader.h:101-108 | the seven defaults of the Settings constructor |
| ImporterCore.LoaderCircleSegments | code/AssetLib/IFC/IFCLoader.cpp:166-169 | the circle segment count is the setting cast to `uint16_t`: below 2^16, equal modulo 2^16, and unchanged when it fits |
| ImporterCore.Importer.constructor | code/AssetLib/IFC/IFCLoader.cpp:61-62 | a new importer has default settings, model id 0 and empty maps |
| ImporterCore.Importer.SetupProperties | code/AssetLib/IFC/IFCLoader.cpp:110-119 | sets five settings, keeps the sampling angle and tessellation, and changes no map |
| ImporterCore.SetupThenLoaderSegments | code/AssetLib/IFC/IFCLoader.cpp:110-119 | after SetupProperties Web-IFC is asked for 32 circle segments and no coordinate shift |
| ImporterCore.CanRead | code/AssetLib/IFC/IFCLoader.cpp:76-89 | `ifc` is always accepted; any other extension only when the signature is checked, an IO handler exists and the header holds `ISO-10303-21` |
| ImporterCore.Chunk | code/AssetLib/IFC/IFCLoader.cpp:180-190 | one callback delivers min(destSize, remaining) bytes from the offset, none past the end |
| ImporterCore.ReadCallback | code/AssetLib/IFC/IFCLoader.cpp:180-190 | copies that chunk to the front of the destination, leaves the rest of it, and returns its length modulo 2^32 |
| ImporterCore.ReadAllReassembles | code/AssetLib/IFC/IFCLoader.cpp:180-194 | calling the callback at increasing offsets until it returns nothing yields exactly the file from the start offset |
| SceneTypes.Scene.constructor | code/AssetLib/IFC/IFCLoader.cpp:201 | the scene starts with no materials, no meshes and a single root node named `IFC_Scene` |
| IfcString.Token | code/AssetLib/IFC/IFCLoader.cpp:1028-1070 | each escape token is four ASCII bytes starting with a backslash |
| IfcString.Letter | code/AssetLib/IFC/IFCLoader.cpp:1029-1071 | each replacement is a two-byte UTF-8 letter, both bytes non-ASCII |
| IfcString.LettersAreNotTokenBytes | code/AssetLib/IFC/IFCLoader.cpp:1028-1073 | no replacement byte occurs in any token |
| IfcString.TokenSpelling | code/AssetLib/IFC/IFCLoader.cpp:1028-1070 | the seven tokens in the order the passes run: `\S\d`, `\S\|`, `\S\_`, `\S\c`, `\S\D`, `\S\\`, `\S\C` |
| IfcString.NoNewOccurrence | code/AssetLib/IFC/IFCLoader.cpp:1028-1031 | a pass leaves no occurrence of its own token and creates no occurrence of a token that was absent |
| IfcString.PassesRemoveTokens | code/AssetLib/IFC/IFCLoader.cpp:1027-1073 | after the first n passes none of their n tokens remains |
| IfcString.DecodeRemovesAllTokens | code/AssetLib/IFC/IFCLoader.cpp:1020-1079 | a decoded string holds none of the seven tokens |
| IfcString.PlainDecoded | code/AssetLib/IFC/IFCLoader.cpp:1020-1079 | a string without a backslash decodes to itself |
| IfcString.TokenFreeUnchanged | code/AssetLib/IFC/IFCLoader.cpp:1020-1079 | a string without any token is returned unchanged |
| IfcString.DecodeIdempotent | code/AssetLib/IFC/IFCLoader.cpp:1020-1079 | decoding a decoded string changes nothing |
| IfcString.DecodeOneEscape | code/AssetLib/IFC/IFCLoader.cpp:1020-1079 | one token between backslash-free text becomes its letter in its own pass and stays a letter afterwards |
| IfcString.EscapeReplaced | code/AssetLib/IFC/IFCLoader.cpp:1028-1031 | the pass of a token turns that token into its letter and keeps the text around it |
| IfcString.LetterStaysPut | code/AssetLib/IFC/IFCLoader.cpp:1034-1073 | no later pass touches a letter an earlier pass wrote |
| IfcString.PassStep | code/AssetLib/IFC/IFCLoader.cpp:1028-1030 | one find-replace-advance step leaves the pass's pending result unchanged |
| IfcString.PassEnd | code/AssetLib/IFC/IFCLoader.cpp:1028 | when find reports no further token, the string is the pass's result |
| IfcString.ReplacePass | code/AssetLib/IFC/IFCLoader.cpp:1027-1031 | the find/replace/`pos += 1` loop replaces every non-overlapping token, left to right |
| IfcString.DecodeIFCString | code/AssetLib/IFC/IFCLoader.cpp:1020-1079 | the seven passes in order, equal to the decoder function the lemmas above describe |
| ElementNames.GetIFCElementName | code/AssetLib/IFC/IFCLoader.cpp:1081-1136 | the decoded Name when it is meaningful (not empty, `$` or `''`); else, for slabs, walls, beams and columns, a decoded Tag containing '-' and shorter than 20 bytes; else "", and "" when the Name read throws |
| ElementNames.ElementNameIsDecoded | code/AssetLib/IFC/IFCLoader.cpp:1090-1120 | an element name never holds a `\S\` token |
| ElementNames.OnlyNameForOtherTypes | code/AssetLib/IFC/IFCLoader.cpp:1099-1126 | for any other type, a name is found exactly when the decoded Name is meaningful |
| ElementNames.TagFallbackUsed | code/AssetLib/IFC/IFCLoader.cpp:1102-1121 | a slab, wall, beam or column whose Name reads but is unusable is called by its decoded Tag whenever the Tag looks like a name |
| ElementNames.WallTagExample | code/AssetLib/IFC/IFCLoader.cpp:1102-1121 | illustration: a wall named `$` with Tag `W-01` is called `W-01` |
| Materials.CreateMaterialFromColor | code/AssetLib/IFC/IFCLoader.cpp:619-667 | a Phong material with the given name: diffuse and base colour from the sRGB colour, opacity its alpha, ambient 0.1 of the diffuse, specular 0.2, shininess 64, metallic 0, roughness 1 |
| Materials.Clamp01 | code/AssetLib/IFC/IFCLoader.cpp:812-817 | `std::clamp(x, 0, 1)`: in [0,1], x when x is already there, else the nearer bound |
| Materials.ExtractColorFromRGB | code/AssetLib/IFC/IFCLoader.cpp:796-824 | three clamped channels and alpha 1; the colour unchanged when a read throws |
| Materials.DiffuseStaysInUnitRange | code/AssetLib/IFC/IFCLoader.cpp:765-783 | starting from a colour in [0,1], the diffuse colour stays in [0,1] whatever the definitions are |
| Materials.ApplyDefinitionsAppend | code/AssetLib/IFC/IFCLoader.cpp:765-783 | applying definitions in two batches equals applying them in one |
| Materials.NonWritersKeepRgb | code/AssetLib/IFC/IFCLoader.cpp:765-776 | definitions that write no colour leave red, green and blue alone |
| Materials.LastColourWins | code/AssetLib/IFC/IFCLoader.cpp:765-776 | the last colour definition decides the diffuse channels |
| Materials.TransparencySetsOnlyAlpha | code/AssetLib/IFC/IFCLoader.cpp:844-849 | a transparency sets alpha to one minus its clamped value and keeps the channels |
| Materials.ExtractMaterialProperties | code/AssetLib/IFC/IFCLoader.cpp:754-794 | writes the diffuse colour the definitions leave over grey 0.8, specular 0.2, shininess 32, metallic 0 and roughness 1; nothing else |
| Materials.FallbackNamesDistinct | code/AssetLib/IFC/IFCLoader.cpp:720 | two fallback names with one prefix are equal only for one express id |
| Materials.AuthoredMaterial | code/AssetLib/IFC/IFCLoader.cpp:711-752 | an authored material: its name, Phong shading, the diffuse colour of its definitions (in [0,1]), specular 0.2 and shininess 32 |
| Materials.ExtractSingleIFCMaterial | code/AssetLib/IFC/IFCLoader.cpp:711-752 | returns the authored material named from argument 0 or `IFC_Material_<id>` |
| Materials.AddAuthored | code/AssetLib/IFC/IFCLoader.cpp:682-689 | one definition appends one material and maps its id to the new slot, keeping the earlier slots |
| Materials.ProcessSurfaceStyle | code/AssetLib/IFC/IFCLoader.cpp:886-950 | a style whose id is already mapped changes nothing; otherwise one grey material named from argument 0 or `IFC_SurfaceStyle_<id>` is appended and mapped |
| Materials.TableValidExtend | code/AssetLib/IFC/IFCLoader.cpp:686-688 | appending a material under a new id keeps the id map a bijection onto the slots |
| Materials.AuthoredAddsOnlyTheirIds | code/AssetLib/IFC/IFCLoader.cpp:682-689 | the authored pass adds no id that no definition carries |
| Materials.AddAllAuthoredValid | code/AssetLib/IFC/IFCLoader.cpp:682-689 | authored materials with distinct ids keep the id map a bijection |
| Materials.ProcessStylesValid | code/AssetLib/IFC/IFCLoader.cpp:868-876 | surface styles keep the bijection, only add ids and only append materials |
| Materials.ProcessStyledItemsValid | code/AssetLib/IFC/IFCLoader.cpp:861-884 | the styled-item pass keeps the bijection, only adds ids and only appends materials |
| Materials.StylesNeverOverrideKnownIds | code/AssetLib/IFC/IFCLoader.cpp:894-895 | a style never remaps an id that is already mapped |
| Materials.StyledItemsKeepKnownIds | code/AssetLib/IFC/IFCLoader.cpp:861-895 | no styled item remaps an id that is already mapped |
| Materials.ProcessStyledItems | code/AssetLib/IFC/IFCLoader.cpp:861-884 | each style of each item in order, only lines typed IFCSURFACESTYLE counting |
| Materials.ExtractIFCMaterials | code/AssetLib/IFC/IFCLoader.cpp:669-709 | the authored pass, then the styled-item pass, over the same vector and id map |
| Materials.ExtractedTableValid | code/AssetLib/IFC/IFCLoader.cpp:669-709 | from scratch with distinct ids, the id map is a bijection onto the slots and authored material i sits in slot i |
| Materials.AuthoredInRange | code/AssetLib/IFC/IFCLoader.cpp:682-689 | even with duplicate ids, every mapped id points inside the material vector |
| Materials.StylesInRange | code/AssetLib/IFC/IFCLoader.cpp:886-950 | surface styles keep every mapped id inside the vector |
| Materials.StyledItemsInRange | code/AssetLib/IFC/IFCLoader.cpp:861-884 | whatever Web-IFC lists, the final map only points at existing slots |
| Materials.AuthoredIndex | code/AssetLib/IFC/IFCLoader.cpp:682-689 | with distinct ids, the i-th definition lands in slot (initial size + i) |
| Materials.AuthoredLength | code/AssetLib/IFC/IFCLoader.cpp:682-689 | the authored pass appends one material per definition |
| Materials.ExtractMaterials | code/AssetLib/IFC/IFCLoader.cpp:575-617 | clears the id map; with the model open, installs the extracted table; otherwise installs the single `IFC_Default` material and an empty map; meshes and nodes unchanged |
| ColorMaterials.Quantise | code/AssetLib/IFC/IFCLoader.cpp:1547 | a channel clamped to [0,255] and rounded is a byte |
| ColorMaterials.HexDigit | code/AssetLib/IFC/IFCLoader.cpp:1549 | an uppercase hexadecimal digit |
| ColorMaterials.Hex2 | code/AssetLib/IFC/IFCLoader.cpp:1546-1551 | a byte printed as exactly two hex digits |
| ColorMaterials.Hex2RoundTrip | code/AssetLib/IFC/IFCLoader.cpp:1546-1551 | the two digits read back to the byte |
| ColorMaterials.ColorKey | code/AssetLib/IFC/IFCLoader.cpp:1553 | the cache key has eight characters |
| ColorMaterials.ColorKeyDecodes | code/AssetLib/IFC/IFCLoader.cpp:1546-1553 | the key spells the four quantised channels in the order R, G, B, A |
| ColorMaterials.ColorKeyIff | code/AssetLib/IFC/IFCLoader.cpp:1553-1559 | two colours share a key exactly when all four quantised channels agree |
| ColorMaterials.QuantiseByte | code/AssetLib/IFC/IFCLoader.cpp:1562-1567 | a byte divided by 255 quantises back to itself |
| ColorMaterials.RoundedKeepsKey | code/AssetLib/IFC/IFCLoader.cpp:1562-1570 | the rounded colour has the key it is filed under |
| ColorMaterials.ExampleKey | code/AssetLib/IFC/IFCLoader.cpp:1546-1553 | illustration: an opaque orange is filed under `E0661CFF` |
| ColorMaterials.ColorSlot | code/AssetLib/IFC/IFCLoader.cpp:1540-1591 | a cached key returns its slot and changes nothing; a new key appends one material named by the key, built from the rounded colour, and caches its slot |
| ColorMaterials.ColorSlotValid | code/AssetLib/IFC/IFCLoader.cpp:1556-1590 | the cache stays valid, the array only grows, and the returned slot holds the material named by the colour's key |
| ColorMaterials.SameSlotIffSameKey | code/AssetLib/IFC/IFCLoader.cpp:1553-1590 | two lookups in a row return the same slot exactly when the colours share a key; a repeated key adds nothing |
| ColorMaterials.GetOrCreateColorMaterial | code/AssetLib/IFC/IFCLoader.cpp:1540-1591 | updates the scene's materials and the cache as ColorSlot says; meshes and nodes unchanged |
| ColorMaterials.ShiftNonZero | code/AssetLib/IFC/IFCLoader.cpp:359-364 | after the insertion no mesh index is 1, the slot the old slot-0 material moved to |
| ColorMaterials.ShiftNonZeroInjective | code/AssetLib/IFC/IFCLoader.cpp:359-364 | meshes keep different material indices exactly when they had different ones |
| ColorMaterials.InsertedDefaultResolution | code/AssetLib/IFC/IFCLoader.cpp:340-364 | after the insertion a non-zero index still names its material; index 0 names `IFC_Default`; the old slot 0 is now slot 1 |
| ColorMaterials.InsertDefaultMaterial | code/AssetLib/IFC/IFCLoader.cpp:340-364 | `IFC_Default` goes in front of the materials and every mesh's index is shifted as ShiftNonZero says |
| Containment.RefWritesPrefix | code/AssetLib/IFC/IFCLoader.cpp:1164-1167 | a relation writes its readable leading element references, each paired with its structure, and stops at the first one that throws |
| Containment.LastWriterWins | code/AssetLib/IFC/IFCLoader.cpp:1166 | an element is a key exactly when some write names it (or it was one), with the structure of the last write naming it |
| Containment.AllWritesIncludes | code/AssetLib/IFC/IFCLoader.cpp:1149-1178 | every write of one relation is among the writes of all |
| Containment.AllWritesOrigin | code/AssetLib/IFC/IFCLoader.cpp:1149-1178 | every write among all comes from one relation |
| Containment.ContainmentDomain | code/AssetLib/IFC/IFCLoader.cpp:1138-1191 | the keys are exactly the written elements; every element of a fully readable relation is a key |
| Containment.PopulateSpatialContainmentMap | code/AssetLib/IFC/IFCLoader.cpp:1138-1191 | the nested loop returns the map the writes define |
| GeometryExtraction.CollectedIff | code/AssetLib/IFC/IFCLoader.cpp:246-271 | an element is collected exactly when its type is not an opening or space and GetFlatMesh returns geometries |
| GeometryExtraction.CollectFlatMeshes | code/AssetLib/IFC/IFCLoader.cpp:244-271 | the collection loop returns the collected elements in Web-IFC's order |
| GeometryExtraction.AddMetadata | code/AssetLib/IFC/IFCLoader.cpp:298-302 | the n new mesh indices get the element's record; other entries are kept |
| GeometryExtraction.ProduceValid | code/AssetLib/IFC/IFCLoader.cpp:280-330 | an element's meshes are valid against the grown material array and have pairwise different materials; the array only grows and the cache stays valid |
| GeometryExtraction.SplitOutcomeValid | code/AssetLib/IFC/IFCLoader.cpp:1810-1815 | the split meshes are valid and have pairwise different materials |
| GeometryExtraction.ElementStepValid | code/AssetLib/IFC/IFCLoader.cpp:277-337 | one element keeps the loop state valid, only appends meshes and materials, and records every new mesh as coming from that element |
| GeometryExtraction.KeepMeshesValid | code/AssetLib/IFC/IFCLoader.cpp:333-337 | when GetLineType throws, the materials the element created leave the state valid |
| GeometryExtraction.RecordedValid | code/AssetLib/IFC/IFCLoader.cpp:298-329 | pushing valid meshes with their record keeps the state valid |
| GeometryExtraction.InitialValid | code/AssetLib/IFC/IFCLoader.cpp:233-275 | the loop starts valid: no meshes, no records, an empty cache |
| GeometryExtraction.ExtractAll | code/AssetLib/IFC/IFCLoader.cpp:277-338 | the whole loop keeps the state valid and only extends meshes and materials |
| GeometryExtraction.ExtractAllOrigin | code/AssetLib/IFC/IFCLoader.cpp:277-338 | every mesh the loop adds is recorded as coming from a collected element, and earlier records are kept |
| GeometryExtraction.FinishScene | code/AssetLib/IFC/IFCLoader.cpp:340-374 | the default-slot insertion when needed, then the mesh array; nodes unchanged |
| GeometryExtraction.FinishValid | code/AssetLib/IFC/IFCLoader.cpp:340-374 | after the insertion every mesh stays valid and keeps its faces; non-zero slots show the same material; slot-0 meshes show `IFC_Default`; the insertion happens exactly when a mesh used slot 0 |
| GeometryExtraction.RecordMesh | code/AssetLib/IFC/IFCLoader.cpp:299-302 | pushes one mesh and records its metadata at its index |
| GeometryExtraction.CreateSplitMeshesFromFlatMesh | code/AssetLib/IFC/IFCLoader.cpp:1716-1831 | the merge that keeps empty buffers, split by material; no mesh when that merge has no vertex or no face |
| GeometryExtraction.FindAtStart | code/AssetLib/IFC/IFCLoader.cpp:284 | `find(p) == 0` exactly when the name starts with p |
| GeometryExtraction.ElementMeshes | code/AssetLib/IFC/IFCLoader.cpp:280-326 | the element's meshes: none for empty buffers, the single mesh renamed to the element name or `Mesh <id>`, or the split of the second merge when the mesh is marked `NeedsSplitting_` |
| GeometryExtraction.RecordNext | code/AssetLib/IFC/IFCLoader.cpp:298-308 | the k-th mesh is pushed and recorded, and `needsDefaultMaterial` follows slot 0 |
| GeometryExtraction.RecordAll | code/AssetLib/IFC/IFCLoader.cpp:298-308 | pushes all of an element's meshes with its record; `needsDefaultMaterial` is set exactly when one of them uses slot 0 |
| GeometryExtraction.ProcessElement | code/AssetLib/IFC/IFCLoader.cpp:278-337 | one loop body, equal to the element step, including the drop when GetLineType throws |
| GeometryExtraction.ExtractGeometry | code/AssetLib/IFC/IFCLoader.cpp:223-390 | a closed model changes nothing; otherwise the metadata is cleared and the scene gets the loop's meshes and materials, finished with the default-slot insertion |
| MeshMerge.Offset | code/AssetLib/IFC/IFCLoader.cpp:1429-1431 | every corner moves by the vertex offset |
| MeshMerge.OffsetAll | code/AssetLib/IFC/IFCLoader.cpp:1425-1434 | every triangle of a geometry, moved by the offset, in order |
| MeshMerge.Repeat | code/AssetLib/IFC/IFCLoader.cpp:1433 | one material index per face |
| MeshMerge.IfcMaterialSlot | code/AssetLib/IFC/IFCLoader.cpp:1401-1418 | the slot is always one the material pass handed out, so it is in range whenever the pass's slots are; present exactly when relMaterials lists a material for the element and the pass mapped it |
| MeshMerge.MergeStepValid | code/AssetLib/IFC/IFCLoader.cpp:1351-1434 | one geometry keeps the merge valid, only extends it, and each of its triangles lands on the same positions, with the geometry's material |
| MeshMerge.AppendedFacesWithin | code/AssetLib/IFC/IFCLoader.cpp:1425-1434 | offset triangles stay within the grown vertex list |
| MeshMerge.AppendedCorners | code/AssetLib/IFC/IFCLoader.cpp:1425-1434 | each appended corner points at the vertex it had in its geometry |
| MeshMerge.MergeAllValid | code/AssetLib/IFC/IFCLoader.cpp:1351-1434 | the whole merge keeps it valid and only extends what it started with |
| MeshMerge.MergeAllFaceCount | code/AssetLib/IFC/IFCLoader.cpp:1739-1807 | without skipping, every geometry contributes all of its triangles |
| MeshMerge.MergeGeometries | code/AssetLib/IFC/IFCLoader.cpp:1351-1434 | the geometry loop computes the merge and leaves the scene's materials and cache as it says |
| MeshMerge.AppendGeometry | code/AssetLib/IFC/IFCLoader.cpp:1351-1434 | one loop body: vertices appended, slot chosen, offset triangles and their material indices appended |
| MeshMerge.AppendVertices | code/AssetLib/IFC/IFCLoader.cpp:1375-1398 | the vertex loop appends every vertex of the geometry, in order, after the ones already collected |
| MeshMerge.AppendTriangles | code/AssetLib/IFC/IFCLoader.cpp:1425-1434 | the face loop appends every triangle moved by the vertex offset, and one copy of the material index per triangle |
| MeshMerge.SingleMaterialIff | code/AssetLib/IFC/IFCLoader.cpp:1463-1465 | the set of material indices has at most one element exactly when every face has the first face's material |
| MeshMerge.MeshFromMergedValid | code/AssetLib/IFC/IFCLoader.cpp:1437-1476 | no mesh exactly when there is no vertex or no face; otherwise faces and material in range, marked `NeedsSplitting_` exactly when two faces disagree |
| MeshMerge.CreateMeshFromFlatMesh | code/AssetLib/IFC/IFCLoader.cpp:1327-1538 | the mesh of the merge that skips empty buffers, with the scene's materials and the cache that merge leaves |
| MeshSplit.FindGroup | code/AssetLib/IFC/IFCLoader.cpp:1605 | the entry of a material carries it; none exactly when no entry does |
| MeshSplit.AddFaceValid | code/AssetLib/IFC/IFCLoader.cpp:1604-1606 | adding face n keeps the grouping of the first n + 1 faces exact |
| MeshSplit.GroupFacesValid | code/AssetLib/IFC/IFCLoader.cpp:1603-1606 | the grouping loop groups all faces exactly |
| MeshSplit.GroupsPartitionFaces | code/AssetLib/IFC/IFCLoader.cpp:1603-1606 | every face lies in exactly one group, that of its material; the groups' materials are distinct and each lists its faces in order |
| MeshSplit.Corners | code/AssetLib/IFC/IFCLoader.cpp:1637-1644 | three original corners per grouped face |
| MeshSplit.CornersWithin | code/AssetLib/IFC/IFCLoader.cpp:1637-1644 | those corners are vertex indices of the mesh |
| MeshSplit.RemapStepValid | code/AssetLib/IFC/IFCLoader.cpp:1647-1663 | one corner keeps the remapping valid: table and copies agree both ways, and every new corner points at a copy of its original vertex |
| MeshSplit.RemapAllValid | code/AssetLib/IFC/IFCLoader.cpp:1628-1667 | the remapping of all corners is valid: no vertex is copied twice, only used vertices are copied |
| MeshSplit.Gather | code/AssetLib/IFC/IFCLoader.cpp:1653 | one copied vertex per remembered original index |
| MeshSplit.Triangles | code/AssetLib/IFC/IFCLoader.cpp:1666 | renumbered corners, three per face |
| MeshSplit.SubMeshCorner | code/AssetLib/IFC/IFCLoader.cpp:1637-1667 | corner c of sub-face j is renumbered corner 3j + c |
| MeshSplit.SubMeshGeometry | code/AssetLib/IFC/IFCLoader.cpp:1611-1687 | a sub-mesh has the group's material, one face per grouped face, at most three vertices per face, and each corner is a copy of the original corner's vertex |
| MeshSplit.SplitMeshes | code/AssetLib/IFC/IFCLoader.cpp:1593-1714 | one sub-mesh per group |
| MeshSplit.SplitMeshesValid | code/AssetLib/IFC/IFCLoader.cpp:1593-1714 | a valid mesh splits into valid meshes with pairwise different materials; mesh k has the material and the face count of group k, and every face's material has a mesh |
| MeshSplit.SplitMeshByMaterials | code/AssetLib/IFC/IFCLoader.cpp:1593-1714 | the grouping loop and the per-group loop compute the sub-meshes described above |
| MeshSplit.BuildSubMesh | code/AssetLib/IFC/IFCLoader.cpp:1611-1708 | names the sub-mesh `<element>_Mat<k>` or `Mesh <id>_Mat<k>` and copies the vertices its faces use |
| MeshSplit.CopyFace | code/AssetLib/IFC/IFCLoader.cpp:1637-1666 | one face remapped and appended keeps the per-group loop state |
| MeshSplit.RemapFace | code/AssetLib/IFC/IFCLoader.cpp:1643-1664 | the three corners remapped in order, the new face their new indices |
| MeshSplit.RemapNext | code/AssetLib/IFC/IFCLoader.cpp:1643-1664 | one corner of the face loop keeps its state |
| MeshSplit.RemapCorner | code/AssetLib/IFC/IFCLoader.cpp:1644-1663 | reuses a copied vertex, or copies it to the end on first use |
| NodeNaming.Prefix8 | code/AssetLib/IFC/IFCLoader.cpp:2432 | `substr(0, 8)`: a prefix of at most eight characters |
| NodeNaming.NodeNameCases | code/AssetLib/IFC/IFCLoader.cpp:2004-2076 | a node keeps its first name exactly when no GlobalId replaces it; a replaced name is `IFC_<type>_<8 GlobalId chars>`; both fallback names are replaced when the type and a non-empty GlobalId read |
| NodeNaming.GlobalIdNameNeverStorey | code/AssetLib/IFC/IFCLoader.cpp:2432 | a GlobalId name never contains `IFC_BuildingStorey` |
| NodeNaming.StoreyFallbackRenamed | code/AssetLib/IFC/IFCLoader.cpp:2037 | any storey whose Name reads give no string (failed or empty) and whose GlobalId is non-empty is named from the GlobalId and loses its `IFC_BuildingStorey` text |
| NodeNaming.ExtractElementProperties | code/AssetLib/IFC/IFCLoader.cpp:2414-2465 | only the node's name can change, to its GlobalId name when it is empty or contains `_<id>` |
| NodeNaming.ReadNodeName | code/AssetLib/IFC/IFCLoader.cpp:2007-2067 | the decoded Name (LongName for spaces), with the typed fallback for an empty string, the decoded-string read when the raw read throws, and `<fallback>_<id>` when everything throws |
| NodeNaming.CreateNodeFromIFCElement | code/AssetLib/IFC/IFCLoader.cpp:2004-2076 | appends one fresh node, without parent, children or meshes, named as the two steps say |
| SceneTree.CountIsPreorderLength | code/AssetLib/IFC/IFCLoader.cpp:2078-2088 | the node count is the number of nodes a preorder walk visits |
| SceneTree.PreorderListMember | code/AssetLib/IFC/IFCLoader.cpp:2078-2088 | a node is visited below a child list exactly when it is visited below one of the children |
| SceneTree.PreorderChild | code/AssetLib/IFC/IFCLoader.cpp:2078-2088 | the walk from a child is part of the walk from its parent |
| SceneTree.PreorderClosed | code/AssetLib/IFC/IFCLoader.cpp:2078-2088 | the walk from a visited node stays inside the walk that visited it |
| SceneTree.ChildVisited | code/AssetLib/IFC/IFCLoader.cpp:2078-2088 | a child of a visited node is visited |
| SceneTree.PreorderParent | code/AssetLib/IFC/IFCLoader.cpp:2078-2088 | in a tree, every visited node but the start has a parent, earlier in the arena and visited too |
| SceneTree.SiblingsDisjoint | code/AssetLib/IFC/IFCLoader.cpp:2078-2088 | in a tree, the walks from two different children of a node share no node |
| SceneTree.PreorderOnce | code/AssetLib/IFC/IFCLoader.cpp:2078-2088 | in a tree, the walk visits no node twice |
| SceneTree.PreorderListOnce | code/AssetLib/IFC/IFCLoader.cpp:2078-2088 | in a tree, the walk below the first k children visits no node twice |
| SceneTree.PreorderVisitsOnce | code/AssetLib/IFC/IFCLoader.cpp:2078-2088 | in a tree, every node the walk reaches is visited exactly once |
| SceneTree.FindVisited | code/AssetLib/IFC/IFCLoader.cpp:2098-2130 | a search hit is a node the walk from the start visits |
| SceneTree.SemanticParentVisited | code/AssetLib/IFC/IFCLoader.cpp:2309-2365 | the semantic parent is a node the walk from the root visits |
| SceneTree.Find | code/AssetLib/IFC/IFCLoader.cpp:2098-2130 | a hit is an existing node, not before the start in the arena, whose name passes the test |
| SceneTree.FindIsFirstInPreorder | code/AssetLib/IFC/IFCLoader.cpp:2098-2130 | the recursive search returns the first matching node in preorder, and none when no node matches |
| SceneTree.FindListIsFirstInPreorder | code/AssetLib/IFC/IFCLoader.cpp:2125-2128 | the child loop returns the first match in the preorder of the children, in order |
| SceneTree.CountNodesInHierarchy | code/AssetLib/IFC/IFCLoader.cpp:2078-2088 | returns the node count |
| SceneTree.NameMatches | code/AssetLib/IFC/IFCLoader.cpp:2106-2122 | the entity-prefix test, or the storey test with its two hard-coded ids |
| SceneTree.FindNode | code/AssetLib/IFC/IFCLoader.cpp:2098-2130 | the recursive search computes the search function |
| SceneTree.FindInChildren | code/AssetLib/IFC/IFCLoader.cpp:2125-2128 | the child loop stops at the first child whose subtree has a hit |
| SceneTree.FindNodeByIFCEntityType | code/AssetLib/IFC/IFCLoader.cpp:2286-2307 | the first node in preorder whose name contains the prefix |
| SceneTree.IsBuildingNameIff | code/AssetLib/IFC/IFCLoader.cpp:2335-2336 | a name passes the building test exactly when it contains `Building` |
| SceneTree.FirstBuildingHolder | code/AssetLib/IFC/IFCLoader.cpp:2326-2347 | the first grandchild that has a building child, and none exactly when no grandchild has one |
| SceneTree.SemanticParent | code/AssetLib/IFC/IFCLoader.cpp:2309-2365 | the root exactly when it has no children; else the first child exactly when none of its children has a building child; else such a grandchild |
| SceneTree.HasBuildings | code/AssetLib/IFC/IFCLoader.cpp:2332-2340 | the loop finds a building child exactly when one exists |
| SceneTree.FindSemanticParentForUnassignedItems | code/AssetLib/IFC/IFCLoader.cpp:2309-2365 | returns the semantic parent |
| SpatialHierarchy.TypedLines | code/AssetLib/IFC/IFCLoader.cpp:1883-1890 | the lines of one type in GetAllLines order, skipping lines whose type read throws |
| SpatialHierarchy.TypedAmongIff | code/AssetLib/IFC/IFCLoader.cpp:1846-1856 | a line is collected exactly when it is a line of the model whose type reads as the wanted one |
| SpatialHierarchy.CollectTypedLines | code/AssetLib/IFC/IFCLoader.cpp:1846-1856 | the scan returns those lines |
| SpatialHierarchy.CountShaped | code/AssetLib/IFC/IFCLoader.cpp:2078-2088 | the node count of a built node depends only on the levels below it |
| SpatialHierarchy.HierarchyCount | code/AssetLib/IFC/IFCLoader.cpp:1883-1992 | the project's subtree has 1 + S·(1 + B·(1 + T·(1 + P))) nodes |
| SpatialHierarchy.SpatialShapeCount | code/AssetLib/IFC/IFCLoader.cpp:1883-1992 | the four spatial levels below a project count 1 + S·(1 + B·(1 + T·(1 + P))) nodes |
| SpatialHierarchy.AttachChildren | code/AssetLib/IFC/IFCLoader.cpp:1986-1992 | assigning the built children completes the node's shape |
| SpatialHierarchy.BuildLevel | code/AssetLib/IFC/IFCLoader.cpp:1894-1963 | one node created, linked to its parent and filled with the levels below it; earlier nodes kept; no meshes |
| SpatialHierarchy.BuildChildren | code/AssetLib/IFC/IFCLoader.cpp:1894-1992 | one child per line of the level's type, in order, each shaped by the remaining levels; only the node's children change |
| SpatialHierarchy.BuildProjectHierarchy | code/AssetLib/IFC/IFCLoader.cpp:1875-1992 | the project node becomes the root, the old arena is kept, the tree stays well formed and holds the full level structure without meshes |
| MeshGrouping.GroupIndex | code/AssetLib/IFC/IFCLoader.cpp:2155 | the entry of a storey carries it; none exactly when no entry does |
| MeshGrouping.GroupPartition | code/AssetLib/IFC/IFCLoader.cpp:2136-2177 | the storey lists and the unassigned list together are a permutation of all mesh indices |
| MeshGrouping.AppendToExistingValid | code/AssetLib/IFC/IFCLoader.cpp:2155 | adding a mesh to its storey's entry keeps the table exact |
| MeshGrouping.AppendNewValid | code/AssetLib/IFC/IFCLoader.cpp:2155 | a storey's first mesh opens an entry and keeps the table exact |
| MeshGrouping.UnassignedGrow | code/AssetLib/IFC/IFCLoader.cpp:2160-2171 | a mesh without a storey joins the unassigned list, which stays exact and increasing |
| MeshGrouping.StepValid | code/AssetLib/IFC/IFCLoader.cpp:2136-2177 | one mesh keeps the table exact: valid over meshes `0..n` before, valid over `0..n+1` after |
| MeshGrouping.GroupValid | code/AssetLib/IFC/IFCLoader.cpp:2133-2177 | each storey has one entry listing exactly its meshes, in increasing order; every storey in use has an entry; the unassigned list holds exactly the meshes without a storey |
| MeshGrouping.GroupMeshes | code/AssetLib/IFC/IFCLoader.cpp:2133-2177 | the grouping loop computes that table |
| MeshAssignment.AppendChildOrdered | code/AssetLib/IFC/IFCLoader.cpp:2212-2226 | appending a leaf as the last child keeps child indices after their parents |
| MeshAssignment.AppendChildTree | code/AssetLib/IFC/IFCLoader.cpp:2212-2226 | appending a leaf whose parent is the target keeps the tree well formed |
| MeshAssignment.AttachAll | code/AssetLib/IFC/IFCLoader.cpp:2191-2227 | one node per listed mesh is added, and child indices stay after their parents |
| MeshAssignment.StoreyTarget | code/AssetLib/IFC/IFCLoader.cpp:2182-2188 | the node found by the storey test, or the root |
| MeshAssignment.PlaceGroups | code/AssetLib/IFC/IFCLoader.cpp:2180-2232 | one node per grouped mesh is added, and child indices stay after their parents |
| MeshAssignment.Assign | code/AssetLib/IFC/IFCLoader.cpp:2180-2283 | one node per grouped or unassigned mesh is added, and child indices stay after their parents |
| MeshAssignment.AssignMeshes | code/AssetLib/IFC/IFCLoader.cpp:2090-2284 | child indices stay after their parents |
| MeshAssignment.AttachMesh | code/AssetLib/IFC/IFCLoader.cpp:2192-2226 | a leaf with the mesh's name, the single mesh index and its record's express id and type, appended as the target's last child |
| MeshAssignment.AttachList | code/AssetLib/IFC/IFCLoader.cpp:2191-2227 | the loop attaches the leaves of a list in order |
| MeshAssignment.AssignMeshesToHierarchy | code/AssetLib/IFC/IFCLoader.cpp:2090-2284 | nothing without meshes; otherwise the grouping pass, then the storey lists, then the unassigned list |
| MeshPlacement.AttachAllKeeps | code/AssetLib/IFC/IFCLoader.cpp:2191-2227 | attaching changes no node other than the target |
| MeshPlacement.AttachAllTarget | code/AssetLib/IFC/IFCLoader.cpp:2212-2226 | the target's children grow by the new leaves, in order; nothing else of it changes |
| MeshPlacement.AttachAllLeaves | code/AssetLib/IFC/IFCLoader.cpp:2194-2209 | the new nodes are, in order, the leaves of the listed meshes under the target |
| MeshPlacement.AttachAllTree | code/AssetLib/IFC/IFCLoader.cpp:2191-2227 | attaching keeps the tree well formed |
| MeshPlacement.PlaceGroupsShape | code/AssetLib/IFC/IFCLoader.cpp:2180-2232 | the storey pass adds the leaves of the lists, one list after another, keeps old nodes and keeps the tree |
| MeshPlacement.PlaceGroupsParents | code/AssetLib/IFC/IFCLoader.cpp:2180-2232 | each leaf of a storey list hangs under a node that passes the storey test for that storey, or under the root |
| MeshPlacement.PlacedMeshRefs | code/AssetLib/IFC/IFCLoader.cpp:2207-2209 | the leaves add exactly the references of their meshes |
| MeshPlacement.PreorderGrown | code/AssetLib/IFC/IFCLoader.cpp:2212-2226 | growing the arena (children only appended) keeps every visited node visited |
| MeshPlacement.AppendChildGrown | code/AssetLib/IFC/IFCLoader.cpp:2212-2226 | appending a child only grows the arena |
| MeshPlacement.AppendChildReached | code/AssetLib/IFC/IFCLoader.cpp:2212-2226 | a leaf appended under a visited node is visited, and every visited node stays visited |
| MeshPlacement.AttachAllReached | code/AssetLib/IFC/IFCLoader.cpp:2191-2227 | leaves attached under a visited node are all visited |
| MeshPlacement.StoreyTargetVisited | code/AssetLib/IFC/IFCLoader.cpp:2182-2188 | the node a storey's meshes go to is visited by the walk from the root |
| MeshPlacement.PlaceGroupsReached | code/AssetLib/IFC/IFCLoader.cpp:2180-2232 | after the storey pass every new leaf is visited by the walk from the root |
| MeshPlacement.AssignMeshesReached | code/AssetLib/IFC/IFCLoader.cpp:2090-2284 | every node mesh assignment adds is visited by the walk from the root |
| MeshPlacement.AlongCount | code/AssetLib/IFC/IFCLoader.cpp:2207-2209 | when one node alone holds a mesh once, the references along a node list hold it as often as the list names that node |
| MeshPlacement.TreeMeshesCount | code/AssetLib/IFC/IFCLoader.cpp:2207-2209 | in a tree where one node alone holds a mesh, the walk from the root meets it once if it visits that node, never otherwise |
| MeshPlacement.LeafHolder | code/AssetLib/IFC/IFCLoader.cpp:2194-2209 | over mesh-free old nodes, the leaf made for a mesh listed once is the only node holding it |
| MeshPlacement.GrownHolder | code/AssetLib/IFC/IFCLoader.cpp:2194-2209 | the same for an arena grown by the leaves of a list |
| MeshPlacement.AssignedTreeMeshes | code/AssetLib/IFC/IFCLoader.cpp:2090-2284 | over a mesh-free tree, the walk from the root of the assigned tree meets each scene mesh exactly once and no other index |
| MeshPlacement.AssignShape | code/AssetLib/IFC/IFCLoader.cpp:2180-2283 | both passes add the leaves of the storey lists, then those of the unassigned list |
| MeshPlacement.AssignMeshesPlacesEachMeshOnce | code/AssetLib/IFC/IFCLoader.cpp:2090-2284 | one new node per mesh; old nodes keep their fields and only gain children; the tree stays well formed; the mesh references grow by each index exactly once |
| MeshPlacement.GroupStoreys | code/AssetLib/IFC/IFCLoader.cpp:2136-2177 | storey lists hold only meshes of their storey; the unassigned list only meshes without one |
| MeshPlacement.UnassignedGrown | code/AssetLib/IFC/IFCLoader.cpp:2235-2283 | the unassigned pass only grows the tree the storey pass left |
| MeshPlacement.UnassignedParents | code/AssetLib/IFC/IFCLoader.cpp:2235-2246 | unassigned leaves hang under the semantic parent of the tree the storey pass left |
| MeshPlacement.AssignStoreyParents | code/AssetLib/IFC/IFCLoader.cpp:2180-2283 | storey leaves keep their parents once the unassigned meshes are placed |
| MeshPlacement.AssignMeshesParents | code/AssetLib/IFC/IFCLoader.cpp:2090-2284 | a mesh with a storey hangs under the root or a node passing the storey test for it; a mesh without one hangs under the semantic parent |
| SceneGraph.FlatHierarchyEachMeshOnce | code/AssetLib/IFC/IFCLoader.cpp:1864-1870 | the flat hierarchy keeps the tree and, over a mesh-free arena, references each mesh once |
| SceneGraph.FlatTreeMeshes | code/AssetLib/IFC/IFCLoader.cpp:1864-1870 | over a mesh-free tree, the walk from the root of the flat hierarchy meets each mesh once |
| SceneGraph.AssignedEachMeshOnce | code/AssetLib/IFC/IFCLoader.cpp:2090-2284 | mesh assignment keeps the tree and, over a mesh-free arena, references each mesh once |
| SceneGraph.AllMeshIndices | code/AssetLib/IFC/IFCLoader.cpp:1867-1869 | the loop yields 0, 1, …, n - 1 |
| SceneGraph.FlatFallback | code/AssetLib/IFC/IFCLoader.cpp:1864-1870 | with meshes, the root's mesh array becomes all mesh indices; nothing else changes |
| SceneGraph.BuildIFCSpatialHierarchy | code/AssetLib/IFC/IFCLoader.cpp:1833-2002 | without a project, the flat hierarchy; otherwise the first project becomes the root of the levels and meshes are assigned below it |
| SceneGraph.HierarchyEachMeshOnce | code/AssetLib/IFC/IFCLoader.cpp:1858-1997 | either branch leaves a well-formed tree; when the arena had no meshes, the walk from the new root meets each mesh exactly once, and so does the whole arena |
| SceneGraph.BuildSceneGraph | code/AssetLib/IFC/IFCLoader.cpp:982-1009 | the node tree stays well formed and, when no node held a mesh before, the walk from the root meets every mesh exactly once and no other index; the whole arena too |
| SceneGraph.ExtractedTable | code/AssetLib/IFC/IFCLoader.cpp:669-709 | the extracted id map only points at existing slots |
| SceneGraph.LoadModel | code/AssetLib/IFC/IFCLoader.cpp:200-209 | the passes in order: the containment map is installed, the materials and meshes are those of the extraction passes, and the tree is well formed and its walk from the root meets each mesh exactly once and no other index; the whole arena too |

## Left out

- Web-IFC itself is not part of this model. Its answers are inputs: `IfcFile` (lines,
  line types, string arguments), `Candidate` (the element list and GetFlatMesh), the
  relMaterials map, the material definitions and styled items, and `IfcTypeCodeToType`
  as `typeName`. The schema codes taken from `webifc::schema` are symbolic constants.
- `CandidatesWellFormed`: every index buffer of Web-IFC is assumed to refer to its own
  vertices. The importer does not check this either.
- Buffer shapes: the model reads an index buffer as `seq<Face>` and a vertex buffer as
  `seq<Vec3>`. So it assumes the index count is a multiple of 3 and the vertex float count
  a multiple of 6. Otherwise the source's face loops read past the end of the index buffer
  (IFCLoader.cpp:1425-1431 and 1796-1802). CreateMeshFromFlatMesh rounds the vertex count
  down (`size() / 6`, line 1359). CreateSplitMeshesFromFlatMesh steps `i += 6` (line 1758),
  which rounds up and reads past the end. Both paths share `MergeAll`, so this difference
  is not visible in the model.
- unordered_map iteration order is fixed to one possible order. `materialToFaceIndices`
  follows first insertion. `storeyToMeshes` follows the first storey met. Material
  definitions, styled items and styles are taken in the order given.
- Floating point is not modelled. Colours and positions are reals. The 4×4 placement
  transform is already applied to the vertices. The sRGB → linear conversion is kept
  only as "this colour, converted" (`Shade.FromSrgb`).
- UV generation and bounds are left out (`GenerateTextureCoordinates` and the UV loop
  of CreateMeshFromFlatMesh), because they are pure floating point.
- Integer widths: only the read callback's `uint32_t` return and the `uint16_t` cast of
  the circle segment count are wrapped. Mesh and material counts are unbounded.
- Exceptions beyond the modelled reads are left out. This covers the catch paths of
  BuildSceneGraph and ExtractGeometry's outer block, and LoadModelWithWebIFC's
  `CleanupWebIFC` and rethrow. It also covers the per-element catches of
  CreateMeshFromFlatMesh (IFCLoader.cpp:1529-1535) and CreateSplitMeshesFromFlatMesh
  (1817-1830). When GetGeometry throws there, the element gets no mesh, but the colour
  materials already created for it stay in the scene. `ExtractMaterials` models its catch only as "the
  model's loader cannot be obtained".
- File and stream I/O are left out: reading the file into memory, the VRML file read,
  and the VRML parser and X3D writer (`ConvertVrmlFileToX3dXml` takes the translated
  text as `translated`).
- `CanRead` takes the extension and the header search result as inputs.
- `InternReadFile`, `InitializeWebIFC`, `GetInfo`, `CleanupWebIFC`, the destructor and the
  model manager are left out, because they are resource handling around Web-IFC.
- Null pointers are left out. Meshes and child nodes are never null in the arena.
- Logging, and reads done only for logging (the description argument in
  ExtractElementProperties, `CountNodesInHierarchy` inside log calls), are left out.
  `CountNodesInHierarchy` itself is modelled.
- Functions that nothing in the scene path calls are left out: `ConvertWebIFCMesh`,
  `SetMeshMaterialFromIFC`, `GetSortedStoreysByElevation` (only `StoreyInfo` is
  declared), `FindBestMeshParent` and `ExtractTypeSpecificProperties` (whose effect is
  logging only).
- Memory: copying the child array into a new array is modelled as appending one child.
  The deleted initial root stays in the arena, unreachable.
- Settings other than `coordinateToOrigin` and `circleSegments` are stored but affect
  nothing the model computes, as in the code.
- SceneGraph.BuildSceneGraph: does not model the flat-hierarchy fallback of its catch
  block, because spatial-hierarchy exceptions are not modelled.
- ColorMaterials.Quantise: `std::round` on a clamped float is modelled as rounding half
  up on reals. This agrees with the code on the non-negative range it is used on.
