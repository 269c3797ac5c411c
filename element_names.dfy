/**
 * IFC entity type codes the importer compares against, and
 * GetIFCElementName: the display name of a building element, read from its
 * Name attribute or, for slabs, walls, beams and columns, from its Tag.
 */
module ElementNames {
  import opened Common
  import opened IfcString
  import opened ImporterCore

  /** Type codes written out in IFCLoader.cpp. */
  const IFCPROJECT: nat := 103090709
  const IFCSITE: nat := 4097777520
  const IFCBUILDING: nat := 4031249490
  const IFCBUILDINGSTOREY: nat := 3124254112
  const IFCSPACE: nat := 3856911033
  const IFCWALL: nat := 2391406946
  const IFCSLAB: nat := 1529196076

  /** Type codes the importer takes from Web-IFC's schema header (webifc::schema). */
  const IFCBEAM: nat := 753842376
  const IFCCOLUMN: nat := 843113511
  const IFCOPENINGELEMENT: nat := 3588315303
  const IFCOPENINGSTANDARDCASE: nat := 3079942009

  /** A decoded string worth using as a name: not empty, not `$`, not `''`. */
  predicate Meaningful(s: string) {
    s != [] && s != "$" && s != "''"
  }

  /** The element types whose Tag is tried when the Name is unusable. */
  predicate HasTagFallback(t: nat) {
    t == IFCSLAB || t == IFCWALL || t == IFCBEAM || t == IFCCOLUMN
  }

  /** The Tag argument position: 7 for a slab, 4 for the others. */
  function TagArgument(t: nat): nat {
    if t == IFCSLAB then 7 else 4
  }

  /** A decoded tag that does not look like a GUID: contains '-' and is shorter than 20 bytes. */
  predicate TagLooksLikeName(s: string) {
    Meaningful(s) && Contains(s, "-") && |s| < 20
  }

  /** The Tag step: the decoded tag if it passes the test, otherwise "". */
  function TagName(f: IfcFile, id: nat, k: nat): string {
    match RawString(f, id, k)
    case None => ""
    case Some(tag) => if tag != [] && TagLooksLikeName(Decode(tag)) then Decode(tag) else ""
  }

  /**
   * GetIFCElementName. Any read that throws ends the attempt with "",
   * which callers take as "fall back to the express id".
   */
  function GetIFCElementName(f: IfcFile, id: nat): (name: string)
    ensures name == "" || Meaningful(name)
    ensures RawString(f, id, 2).Some? && Meaningful(Decode(RawString(f, id, 2).value)) ==>
              name == Decode(RawString(f, id, 2).value)
    ensures name != "" && !(RawString(f, id, 2).Some? && Meaningful(Decode(RawString(f, id, 2).value))) ==>
              RawString(f, id, 2).Some? && LineType(f, id).Some? && HasTagFallback(LineType(f, id).value)
              && RawString(f, id, TagArgument(LineType(f, id).value)).Some?
              && name == Decode(RawString(f, id, TagArgument(LineType(f, id).value)).value)
              && TagLooksLikeName(name)
    ensures RawString(f, id, 2).None? ==> name == ""
  {
    match RawString(f, id, 2)
    case None => ""
    case Some(raw) =>
      if raw != [] && Meaningful(Decode(raw)) then Decode(raw)
      else
        match LineType(f, id)
        case None => ""
        case Some(t) => if HasTagFallback(t) then TagName(f, id, TagArgument(t)) else ""
  }

  /** A name the importer reports never still holds a `\S\` escape. */
  lemma ElementNameIsDecoded(f: IfcFile, id: nat)
    ensures forall k :: 0 <= k < NumPasses ==> !Contains(GetIFCElementName(f, id), Token(k))
  {
    var name := GetIFCElementName(f, id);
    if name == "" {
      forall k | 0 <= k < NumPasses
        ensures !Contains(name, Token(k))
      {
        assert FindFrom(name, Token(k), 0).None?;
      }
    } else if RawString(f, id, 2).Some? && Meaningful(Decode(RawString(f, id, 2).value)) {
      DecodeRemovesAllTokens(RawString(f, id, 2).value);
    } else {
      DecodeRemovesAllTokens(RawString(f, id, TagArgument(LineType(f, id).value)).value);
    }
  }

  /** An element whose type has no tag fallback gets a name only from its Name attribute. */
  lemma OnlyNameForOtherTypes(f: IfcFile, id: nat)
    requires LineType(f, id).Some? && !HasTagFallback(LineType(f, id).value)
    ensures GetIFCElementName(f, id) != "" <==>
              RawString(f, id, 2).Some? && Meaningful(Decode(RawString(f, id, 2).value))
  {
  }

  /**
   * A slab, wall, beam or column whose Name reads but is not usable is
   * called by its Tag whenever the Tag looks like a name.
   */
  lemma TagFallbackUsed(f: IfcFile, id: nat)
    requires RawString(f, id, 2).Some? && !Meaningful(Decode(RawString(f, id, 2).value))
    requires LineType(f, id).Some? && HasTagFallback(LineType(f, id).value)
    requires var tag := RawString(f, id, TagArgument(LineType(f, id).value));
             tag.Some? && tag.value != [] && TagLooksLikeName(Decode(tag.value))
    ensures GetIFCElementName(f, id) == Decode(RawString(f, id, TagArgument(LineType(f, id).value)).value)
  {
  }

  /** Illustration: a wall named `$` with tag `W-01` is called `W-01`. */
  lemma WallTagExample(id: nat)
    ensures var f := IfcFile([id], map[id := IFCWALL], map[(id, 2) := "$", (id, 4) := "W-01"], map[]);
            GetIFCElementName(f, id) == "W-01"
  {
    var f := IfcFile([id], map[id := IFCWALL], map[(id, 2) := "$", (id, 4) := "W-01"], map[]);
    PlainDecoded("$");
    PlainDecoded("W-01");
    assert TagArgument(IFCWALL) == 4 && RawString(f, id, 4) == Some("W-01");
    assert RawString(f, id, 2) == Some("$") && !Meaningful(Decode("$"));
    assert OccursAt("W-01", "-", 1);
    TagFallbackUsed(f, id);
  }
}
