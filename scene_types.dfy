/**
 * The parts of an Assimp scene the IFC importer fills in: materials, meshes
 * and the node tree, plus the colours and records they are built from.
 *
 * aiNode pointers become indices into `Scene.nodes`. A node is allocated by
 * appending it, so a node's index is never reused; a node the importer
 * deletes (the initial root, when a project replaces it) simply stays in the
 * store, unreachable from `root`.
 */
module SceneTypes {
  import opened Common

  /** aiColor4D; the importer's floats are modelled as reals. */
  datatype Rgba = Rgba(r: real, g: real, b: real, a: real)

  /** aiColor3D. */
  datatype Rgb = Rgb(r: real, g: real, b: real)

  /**
   * A colour property of a material. `FromSrgb(c, s)` is `s` times the
   * linear-RGB form of the sRGB colour `c`, alpha kept as `c.a`; the
   * conversion itself (a `pow` on floats) is not modelled, only which colour
   * it was applied to and the factor applied afterwards.
   */
  datatype Shade = Exact(c: Rgba) | FromSrgb(srgb: Rgba, scale: real)

  datatype ShadingModel = Phong

  /** An aiMaterial as the plain record of the properties the importer sets. */
  datatype Material = Material(
    name: string,
    shading: Option<ShadingModel>,
    diffuse: Shade,
    specular: Rgb,
    shininess: real,
    opacity: Option<real>,
    ambient: Option<Shade>,
    baseColor: Option<Shade>,
    metallic: real,
    roughness: real)

  /** A vertex position, already placed in world coordinates. */
  datatype Vec3 = Vec3(x: real, y: real, z: real)

  /** A triangle: three vertex indices. */
  datatype Face = Face(i0: nat, i1: nat, i2: nat)
  {
    function Corner(k: nat): nat
      requires k < 3
    {
      if k == 0 then i0 else if k == 1 then i1 else i2
    }
  }

  datatype Mesh = Mesh(name: string, vertices: seq<Vec3>, faces: seq<Face>, materialIndex: nat)

  /** A value of aiMetadata: the importer stores unsigned ids and strings. */
  datatype MetaValue = MetaUInt(n: nat) | MetaString(s: string)

  /** An aiNode: its name, its parent, its children and its mesh indices. */
  datatype Node = Node(
    name: string,
    parent: Option<nat>,
    children: seq<nat>,
    meshes: seq<nat>,
    metadata: seq<(string, MetaValue)>)

  function NewNode(name: string): Node {
    Node(name, None, [], [], [])
  }

  /** The aiScene the importer writes into. */
  class Scene {
    var materials: seq<Material>
    var meshes: seq<Mesh>
    var nodes: seq<Node>
    var root: nat

    /** The scene as the importer starts it: a single root node named IFC_Scene. */
    constructor()
      ensures materials == [] && meshes == []
      ensures nodes == [NewNode("IFC_Scene")] && root == 0
    {
      materials := [];
      meshes := [];
      nodes := [NewNode("IFC_Scene")];
      root := 0;
    }
  }
}
