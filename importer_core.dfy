/**
 * The importer object's own state (settings and the three lookup maps it
 * keeps between passes), the Web-IFC reads it depends on, CanRead and the
 * in-memory read callback handed to the Web-IFC loader.
 */
module ImporterCore {
  import opened Common

  /** IFCImporter::Settings. */
  datatype Settings = Settings(
    skipSpaceRepresentations: bool,
    useCustomTriangulation: bool,
    skipAnnotations: bool,
    conicSamplingAngle: real,
    cylindricalTessellation: int,
    coordinateToOrigin: bool,
    circleSegments: int)

  /** The defaults of the Settings constructor. */
  function DefaultSettings(): (s: Settings)
    ensures s.skipSpaceRepresentations && s.useCustomTriangulation && s.skipAnnotations
    ensures !s.coordinateToOrigin
    ensures s.conicSamplingAngle == 10.0 && s.cylindricalTessellation == 32 && s.circleSegments == 12
  {
    Settings(true, true, true, 10.0, 32, false, 12)
  }

  /** The circle segment count handed to Web-IFC: `static_cast<uint16_t>` of the int setting. */
  function LoaderCircleSegments(s: Settings): (n: nat)
    ensures n < 0x1_0000
    ensures 0 <= s.circleSegments < 0x1_0000 ==> n == s.circleSegments
    ensures (n - s.circleSegments) % 0x1_0000 == 0
  {
    s.circleSegments % 0x1_0000
  }

  /** IFCMeshMetadata: where a scene mesh came from. */
  datatype MeshMetadata = MeshMetadata(expressID: nat, ifcType: string, elementName: string)

  /** StoreyInfo: declared for an elevation sort that nothing calls. */
  datatype StoreyInfo = StoreyInfo(expressID: nat, elevation: real, name: string)

  /**
   * What Web-IFC answers about the open model. A missing entry stands for a
   * read that throws.
   *   lines          GetAllLines, in the order Web-IFC yields them
   *   lineType       GetLineType
   *   rawString      MoveToArgumentOffset(id, k) then GetStringArgument
   *   decodedString  moving to argument k of id, finding a STRING token and
   *                  reading it with GetDecodedStringArgument
   */
  datatype IfcFile = IfcFile(
    lines: seq<nat>,
    lineType: map<nat, nat>,
    rawString: map<(nat, nat), string>,
    decodedString: map<(nat, nat), string>)

  function LineType(f: IfcFile, id: nat): Option<nat> {
    if id in f.lineType then Some(f.lineType[id]) else None
  }

  function RawString(f: IfcFile, id: nat, k: nat): Option<string> {
    if (id, k) in f.rawString then Some(f.rawString[(id, k)]) else None
  }

  function DecodedString(f: IfcFile, id: nat, k: nat): Option<string> {
    if (id, k) in f.decodedString then Some(f.decodedString[(id, k)]) else None
  }

  /** The IFCImporter object: its settings and the maps later passes read. */
  class Importer {
    var settings: Settings
    var currentModelID: nat
    /** express id of a material or surface style -> scene material index */
    var materialIDToIndex: map<nat, nat>
    /** scene mesh index -> where the mesh came from */
    var meshToIFCMetadata: map<nat, MeshMetadata>
    /** element express id -> express id of its containing spatial structure */
    var elementToStoreyMap: map<nat, nat>

    constructor()
      ensures settings == DefaultSettings() && currentModelID == 0
      ensures materialIDToIndex == map[] && meshToIFCMetadata == map[] && elementToStoreyMap == map[]
    {
      settings := DefaultSettings();
      currentModelID := 0;
      materialIDToIndex := map[];
      meshToIFCMetadata := map[];
      elementToStoreyMap := map[];
    }

    /** SetupProperties: fixes five settings and keeps the sampling angle and tessellation. */
    method SetupProperties()
      modifies this
      ensures settings == old(settings).(skipSpaceRepresentations := true, coordinateToOrigin := false,
                                         circleSegments := 32, useCustomTriangulation := true,
                                         skipAnnotations := true)
      ensures currentModelID == old(currentModelID) && materialIDToIndex == old(materialIDToIndex)
      ensures meshToIFCMetadata == old(meshToIFCMetadata) && elementToStoreyMap == old(elementToStoreyMap)
    {
      settings := settings.(skipSpaceRepresentations := true);
      settings := settings.(coordinateToOrigin := false);
      settings := settings.(circleSegments := 32);
      settings := settings.(useCustomTriangulation := true);
      settings := settings.(skipAnnotations := true);
    }
  }

  /** After SetupProperties on a fresh importer, Web-IFC is asked for 32 circle segments. */
  lemma SetupThenLoaderSegments(s: Settings)
    requires s == DefaultSettings().(skipSpaceRepresentations := true, coordinateToOrigin := false,
                                     circleSegments := 32, useCustomTriangulation := true,
                                     skipAnnotations := true)
    ensures LoaderCircleSegments(s) == 32 && !s.coordinateToOrigin
    ensures s.cylindricalTessellation == 32 && s.conicSamplingAngle == 10.0
  {
  }

  /**
   * CanRead. `extension` is what GetExtension yields for the path and
   * `headerHasToken` what SearchFileHeaderForToken finds for "ISO-10303-21";
   * both are read from the file system, which the model does not see.
   */
  function CanRead(extension: string, checkSig: bool, hasIOHandler: bool, headerHasToken: bool): (r: bool)
    ensures extension == "ifc" ==> r
    ensures extension != "ifc" ==> (r <==> checkSig && hasIOHandler && headerHasToken)
  {
    if extension == "ifc" then true
    else if checkSig && hasIOHandler then headerHasToken
    else false
  }

  /** The bytes one call of the read callback delivers. */
  function Chunk(data: seq<bv8>, offset: nat, size: nat): (c: seq<bv8>)
    ensures offset >= |data| ==> c == []
    ensures offset < |data| ==> |c| == (if size <= |data| - offset then size else |data| - offset)
    ensures offset < |data| ==> c == data[offset..offset + |c|]
  {
    if offset >= |data| then []
    else if size <= |data| - offset then data[offset..offset + size]
    else data[offset..]
  }

  /**
   * The read callback of LoadModelWithWebIFC: copies min(destSize, remaining)
   * bytes from `data[offset..]` to the front of `dest` and returns that count
   * cast to uint32. `dest` has room for `destSize` bytes, as Web-IFC promises.
   */
  method ReadCallback(data: seq<bv8>, dest: array<bv8>, offset: nat, destSize: nat) returns (copied: nat)
    requires destSize <= dest.Length
    modifies dest
    ensures copied == |Chunk(data, offset, destSize)| % 0x1_0000_0000
    ensures dest[..|Chunk(data, offset, destSize)|] == Chunk(data, offset, destSize)
    ensures dest[|Chunk(data, offset, destSize)|..] == old(dest[|Chunk(data, offset, destSize)|..])
  {
    if offset >= |data| {
      return 0;
    }
    var n := if destSize <= |data| - offset then destSize else |data| - offset;
    var i := 0;
    while i < n
      invariant 0 <= i <= n
      invariant dest[..i] == data[offset..offset + i]
      invariant dest[n..] == old(dest[n..])
    {
      dest[i] := data[offset + i];
      i := i + 1;
    }
    copied := n % 0x1_0000_0000;
  }

  /** What the loader collects by calling the callback at increasing offsets until it returns nothing. */
  function ReadAll(data: seq<bv8>, offset: nat, size: nat): seq<bv8>
    requires size > 0
    decreases |data| - offset
  {
    var c := Chunk(data, offset, size);
    if |c| == 0 then [] else c + ReadAll(data, offset + |c|, size)
  }

  /** Reading the whole buffer chunk by chunk from `offset` yields exactly `data[offset..]`. */
  lemma {:induction false} ReadAllReassembles(data: seq<bv8>, offset: nat, size: nat)
    requires size > 0 && offset <= |data|
    ensures ReadAll(data, offset, size) == data[offset..]
    decreases |data| - offset
  {
    var c := Chunk(data, offset, size);
    if |c| > 0 {
      ReadAllReassembles(data, offset + |c|, size);
      assert data[offset..] == c + data[offset + |c|..];
    }
  }
}
