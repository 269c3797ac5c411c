/**
 * Colour materials: GetOrCreateColorMaterial's cache from an RRGGBBAA key
 * to a scene material slot, and the IFC_Default slot that ExtractGeometry
 * inserts in front of the material array.
 */
module ColorMaterials {
  import opened Common
  import opened SceneTypes
  import opened Materials

  /** `std::round(std::min(std::max(v * 255, 0), 255))`: a channel quantised to a byte. */
  function Quantise(v: real): (q: nat)
    ensures q <= 255
  {
    var x := if v * 255.0 < 0.0 then 0.0 else if v * 255.0 > 255.0 then 255.0 else v * 255.0;
    (x + 0.5).Floor
  }

  /** One uppercase hexadecimal digit. */
  function HexDigit(d: nat): (c: char)
    requires d < 16
    ensures ('0' <= c <= '9') || ('A' <= c <= 'F')
  {
    if d < 10 then ('0' as int + d) as char else ('A' as int + d - 10) as char
  }

  /** The value of a hexadecimal digit. */
  function HexValue(c: char): nat {
    if '0' <= c <= '9' then c as int - '0' as int
    else if 'A' <= c <= 'F' then c as int - 'A' as int + 10
    else 0
  }

  /** `std::hex << std::uppercase << std::setfill('0') << std::setw(2)` of a byte. */
  function Hex2(q: nat): (s: string)
    requires q < 256
    ensures |s| == 2
  {
    [HexDigit(q / 16), HexDigit(q % 16)]
  }

  /** Two hex digits read back give the byte. */
  lemma Hex2RoundTrip(q: nat)
    requires q < 256
    ensures HexValue(Hex2(q)[0]) * 16 + HexValue(Hex2(q)[1]) == q
  {
    assert HexValue(HexDigit(q / 16)) == q / 16;
    assert HexValue(HexDigit(q % 16)) == q % 16;
  }

  /** The 8-character cache key RRGGBBAA of a colour. */
  function ColorKey(c: Rgba): (k: string)
    ensures |k| == 8
  {
    Hex2(Quantise(c.r)) + Hex2(Quantise(c.g)) + Hex2(Quantise(c.b)) + Hex2(Quantise(c.a))
  }

  /** The byte stored at positions 2i and 2i+1 of a key. */
  function KeyByte(k: string, i: nat): nat
    requires |k| == 8 && i < 4
  {
    HexValue(k[2 * i]) * 16 + HexValue(k[2 * i + 1])
  }

  /** The key spells the four quantised channels, in the order red, green, blue, alpha. */
  lemma ColorKeyDecodes(c: Rgba)
    ensures KeyByte(ColorKey(c), 0) == Quantise(c.r) && KeyByte(ColorKey(c), 1) == Quantise(c.g)
    ensures KeyByte(ColorKey(c), 2) == Quantise(c.b) && KeyByte(ColorKey(c), 3) == Quantise(c.a)
  {
    var k := ColorKey(c);
    Hex2RoundTrip(Quantise(c.r));
    Hex2RoundTrip(Quantise(c.g));
    Hex2RoundTrip(Quantise(c.b));
    Hex2RoundTrip(Quantise(c.a));
    assert k[0..2] == Hex2(Quantise(c.r));
    assert k[2..4] == Hex2(Quantise(c.g));
    assert k[4..6] == Hex2(Quantise(c.b));
    assert k[6..8] == Hex2(Quantise(c.a));
  }

  predicate SameBytes(c: Rgba, d: Rgba) {
    Quantise(c.r) == Quantise(d.r) && Quantise(c.g) == Quantise(d.g)
    && Quantise(c.b) == Quantise(d.b) && Quantise(c.a) == Quantise(d.a)
  }

  /** Two colours share a key exactly when all four of their quantised channels agree. */
  lemma ColorKeyIff(c: Rgba, d: Rgba)
    ensures ColorKey(c) == ColorKey(d) <==> SameBytes(c, d)
  {
    ColorKeyDecodes(c);
    ColorKeyDecodes(d);
  }

  /** The colour the new material is built from: each channel quantised and divided by 255. */
  function Rounded(c: Rgba): Rgba {
    Rgba(Quantise(c.r) as real / 255.0, Quantise(c.g) as real / 255.0,
         Quantise(c.b) as real / 255.0, Quantise(c.a) as real / 255.0)
  }

  lemma QuantiseByte(q: nat)
    requires q <= 255
    ensures Quantise(q as real / 255.0) == q
  {
    assert (q as real / 255.0) * 255.0 == q as real;
    assert (q as real + 0.5).Floor == q;
  }

  /** The rounded colour has the key it was filed under. */
  lemma RoundedKeepsKey(c: Rgba)
    ensures ColorKey(Rounded(c)) == ColorKey(c)
  {
    var d := Rounded(c);
    QuantiseByte(Quantise(c.r));
    assert Quantise(d.r) == Quantise(c.r);
    QuantiseByte(Quantise(c.g));
    assert Quantise(d.g) == Quantise(c.g);
    QuantiseByte(Quantise(c.b));
    assert Quantise(d.b) == Quantise(c.b);
    QuantiseByte(Quantise(c.a));
    assert Quantise(d.a) == Quantise(c.a);
  }

  /** Illustration: an orange fully opaque colour is filed under E0661CFF. */
  lemma ExampleKey()
    ensures ColorKey(Rgba(224.0 / 255.0, 102.0 / 255.0, 28.0 / 255.0, 1.0)) == "E0661CFF"
  {
    QuantiseByte(224);
    QuantiseByte(102);
    QuantiseByte(28);
    QuantiseByte(255);
    assert 1.0 == 255 as real / 255.0;
  }

  /** Every cached key names a slot holding the material created under that key. */
  predicate CacheValid(materials: seq<Material>, cache: map<string, nat>) {
    forall k :: k in cache ==> cache[k] < |materials| && materials[cache[k]].name == k
  }

  datatype ColorSlotResult = ColorSlotResult(materials: seq<Material>, cache: map<string, nat>, index: nat)

  /** The effect of GetOrCreateColorMaterial on the material array and the cache. */
  function ColorSlot(materials: seq<Material>, cache: map<string, nat>, color: Rgba): (r: ColorSlotResult)
    ensures ColorKey(color) in cache ==> r == ColorSlotResult(materials, cache, cache[ColorKey(color)])
    ensures ColorKey(color) !in cache ==>
              r.materials == materials + [CreateMaterialFromColor(Rounded(color), ColorKey(color))]
              && r.index == |materials| && r.cache == cache[ColorKey(color) := |materials|]
  {
    var key := ColorKey(color);
    if key in cache then ColorSlotResult(materials, cache, cache[key])
    else ColorSlotResult(materials + [CreateMaterialFromColor(Rounded(color), key)], cache[key := |materials|], |materials|)
  }

  /**
   * The cache stays valid, the array only grows, and the returned slot holds
   * the material named by the colour's key.
   */
  lemma ColorSlotValid(materials: seq<Material>, cache: map<string, nat>, color: Rgba)
    requires CacheValid(materials, cache)
    ensures var r := ColorSlot(materials, cache, color);
            CacheValid(r.materials, r.cache) && materials <= r.materials
            && r.index < |r.materials| && r.materials[r.index].name == ColorKey(color)
            && cache.Keys <= r.cache.Keys && (forall k :: k in cache ==> r.cache[k] == cache[k])
  {
  }

  /**
   * Two lookups in a row return the same slot exactly when the colours have
   * the same key; the second lookup of a known key adds nothing.
   */
  lemma SameSlotIffSameKey(materials: seq<Material>, cache: map<string, nat>, c1: Rgba, c2: Rgba)
    requires CacheValid(materials, cache)
    ensures var r1 := ColorSlot(materials, cache, c1);
            var r2 := ColorSlot(r1.materials, r1.cache, c2);
            (r1.index == r2.index <==> ColorKey(c1) == ColorKey(c2))
            && (ColorKey(c1) == ColorKey(c2) ==> r2.materials == r1.materials)
  {
    var r1 := ColorSlot(materials, cache, c1);
    ColorSlotValid(materials, cache, c1);
    var r2 := ColorSlot(r1.materials, r1.cache, c2);
    ColorSlotValid(r1.materials, r1.cache, c2);
    if r1.index == r2.index {
      assert r2.materials[r1.index] == r1.materials[r1.index];
    }
  }

  /**
   * GetOrCreateColorMaterial: a known key returns its cached slot; a new key
   * appends one material built from the rounded colour and caches its slot.
   * `cache` stands for the colorMaterialCache ExtractGeometry owns.
   */
  method GetOrCreateColorMaterial(scene: Scene, color: Rgba, cache: map<string, nat>)
    returns (index: nat, cache': map<string, nat>)
    modifies scene
    ensures ColorSlotResult(scene.materials, cache', index) == ColorSlot(old(scene.materials), cache, color)
    ensures scene.meshes == old(scene.meshes) && scene.nodes == old(scene.nodes) && scene.root == old(scene.root)
  {
    var colorKey := Hex2(Quantise(color.r)) + Hex2(Quantise(color.g)) + Hex2(Quantise(color.b)) + Hex2(Quantise(color.a));
    if colorKey in cache {
      return cache[colorKey], cache;
    }
    var roundedColor := Rgba(Quantise(color.r) as real / 255.0, Quantise(color.g) as real / 255.0,
                             Quantise(color.b) as real / 255.0, Quantise(color.a) as real / 255.0);
    var material := CreateMaterialFromColor(roundedColor, colorKey);
    var existing := scene.materials;
    var count := |existing|;
    var newMaterials := new Material[count + 1]((i: int) requires 0 <= i <= count => if i < count then existing[i] else material);
    scene.materials := newMaterials[..];
    assert scene.materials == old(scene.materials) + [material];
    index := count;
    cache' := cache[colorKey := index];
  }

  /**
   * The material index a mesh has after IFC_Default is inserted: only
   * non-zero indices move, and nothing lands on slot 1, where the old
   * slot-0 material now sits.
   */
  function ShiftNonZero(i: nat): (j: nat)
    ensures i > 0 ==> j == i + 1
    ensures i == 0 ==> j == 0
    ensures j != 1
  {
    if i > 0 then i + 1 else 0
  }

  /** Meshes with different material indices keep different indices after the shift. */
  lemma ShiftNonZeroInjective(a: nat, b: nat)
    ensures ShiftNonZero(a) == ShiftNonZero(b) <==> a == b
  {
  }

  /**
   * After the insertion a mesh with a non-zero index still resolves to the
   * material it had, and a mesh that had slot 0 resolves to IFC_Default
   * (the material that was in slot 0 moves to slot 1).
   */
  lemma InsertedDefaultResolution(materials: seq<Material>, i: nat)
    requires i < |materials|
    ensures ShiftNonZero(i) < |materials| + 1
    ensures i > 0 ==> ([DefaultMaterial()] + materials)[ShiftNonZero(i)] == materials[i]
    ensures i == 0 ==> ([DefaultMaterial()] + materials)[ShiftNonZero(i)] == DefaultMaterial()
    ensures ([DefaultMaterial()] + materials)[1] == materials[0]
  {
  }

  /**
   * The default-slot insertion at the end of ExtractGeometry: IFC_Default goes
   * to slot 0, every old slot moves up by one, and the meshes' non-zero
   * indices are incremented.
   */
  method InsertDefaultMaterial(scene: Scene, meshes: seq<Mesh>) returns (shifted: seq<Mesh>)
    modifies scene
    ensures scene.materials == [DefaultMaterial()] + old(scene.materials)
    ensures |shifted| == |meshes|
    ensures forall i :: 0 <= i < |meshes| ==>
              shifted[i] == meshes[i].(materialIndex := ShiftNonZero(meshes[i].materialIndex))
    ensures scene.meshes == old(scene.meshes) && scene.nodes == old(scene.nodes) && scene.root == old(scene.root)
  {
    var defaultMat := CreateMaterialFromColor(DefaultGrey, "IFC_Default");
    var newMaterials := [defaultMat];
    for i := 0 to |scene.materials|
      invariant newMaterials == [defaultMat] + scene.materials[..i]
    {
      newMaterials := newMaterials + [scene.materials[i]];
    }
    assert scene.materials[..|scene.materials|] == scene.materials;
    scene.materials := newMaterials;
    shifted := meshes;
    for i := 0 to |shifted|
      invariant |shifted| == |meshes|
      invariant forall j :: 0 <= j < i ==> shifted[j] == meshes[j].(materialIndex := ShiftNonZero(meshes[j].materialIndex))
      invariant forall j :: i <= j < |shifted| ==> shifted[j] == meshes[j]
    {
      if shifted[i].materialIndex > 0 {
        shifted := shifted[i := shifted[i].(materialIndex := shifted[i].materialIndex + 1)];
      }
    }
  }
}
