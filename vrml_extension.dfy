/**
 * The two file-extension predicates of the VRML converter and the dispatch
 * that decides whether a file is converted to X3D XML at all.
 */
module VrmlExtension {
  import opened Common

  /** std::string::find_last_of(c). */
  function FindLastOf(s: string, c: char): (r: Option<nat>)
    ensures r.Some? ==> r.value < |s| && s[r.value] == c
    ensures r.Some? ==> forall j :: r.value < j < |s| ==> s[j] != c
    ensures r.None? ==> forall j :: 0 <= j < |s| ==> s[j] != c
  {
    if |s| == 0 then None
    else if s[|s| - 1] == c then Some(|s| - 1)
    else FindLastOf(s[..|s| - 1], c)
  }

  /** `i` is the position of the last '.' of `path`. */
  ghost predicate IsLastDot(path: string, i: int) {
    0 <= i < |path| && path[i] == '.' && forall j :: i < j < |path| ==> path[j] != '.'
  }

  /** `pFile.substr(pFile.find_last_of('.') + 1)`, or None when there is no '.'. */
  function Extension(path: string): (ext: Option<string>)
    ensures ext.None? <==> '.' !in path
    ensures ext.Some? ==> exists i :: IsLastDot(path, i) && ext.value == path[i + 1..]
  {
    match FindLastOf(path, '.')
    case None => None
    case Some(pos) => assert IsLastDot(path, pos); Some(path[pos + 1..])
  }

  function IsFileWrlVrml97Ext(path: string): (r: bool)
    ensures r <==> exists i :: IsLastDot(path, i) && |path| == i + 4
                     && path[i + 1] in "wW" && path[i + 2] in "rR" && path[i + 3] in "lL"
  {
    match Extension(path)
    case None => false
    case Some(ext) =>
      |ext| == 3
      && (ext[0] == 'w' || ext[0] == 'W')
      && (ext[1] == 'r' || ext[1] == 'R')
      && (ext[2] == 'l' || ext[2] == 'L')
  }

  function IsFileX3dvClassicVrmlExt(path: string): (r: bool)
    ensures r <==> exists i :: IsLastDot(path, i) && |path| == i + 5
                     && path[i + 1] in "xX" && path[i + 2] == '3' && path[i + 3] in "dD" && path[i + 4] in "vV"
  {
    match Extension(path)
    case None => false
    case Some(ext) =>
      |ext| == 4
      && (ext[0] == 'x' || ext[0] == 'X')
      && ext[1] == '3'
      && (ext[2] == 'd' || ext[2] == 'D')
      && (ext[3] == 'v' || ext[3] == 'V')
  }

  /** A path without any '.' is neither kind of VRML file. */
  lemma NoDotIsRejected(path: string)
    requires '.' !in path
    ensures !IsFileWrlVrml97Ext(path) && !IsFileX3dvClassicVrmlExt(path)
  {
  }

  /**
   * Whatever precedes the last '.', the suffix after it alone decides: it is
   * the extension, and it is accepted exactly when it spells `wrl` or `x3dv`
   * with any case for the letters.
   */
  lemma {:induction false} LastSuffixDecides(stem: string, suffix: string)
    requires '.' !in suffix
    ensures Extension(stem + "." + suffix) == Some(suffix)
    ensures IsFileWrlVrml97Ext(stem + "." + suffix) <==>
              |suffix| == 3 && suffix[0] in "wW" && suffix[1] in "rR" && suffix[2] in "lL"
    ensures IsFileX3dvClassicVrmlExt(stem + "." + suffix) <==>
              |suffix| == 4 && suffix[0] in "xX" && suffix[1] == '3' && suffix[2] in "dD" && suffix[3] in "vV"
  {
    var path := stem + "." + suffix;
    assert path[|stem|] == '.';
    assert forall j :: |stem| < j < |path| ==> path[j] == suffix[j - |stem| - 1];
    var r := FindLastOf(path, '.');
    assert r == Some(|stem|);
    assert path[|stem| + 1..] == suffix;
  }

  /** Illustration: only the text after the last '.' counts. */
  lemma OnlyLastSuffixCounts()
    ensures !IsFileWrlVrml97Ext("a.wrl.txt")
    ensures IsFileWrlVrml97Ext("a.txt.wrl")
    ensures IsFileWrlVrml97Ext("scene.WrL")
    ensures IsFileX3dvClassicVrmlExt("scene.X3Dv") && !IsFileX3dvClassicVrmlExt("scene.xXdv")
  {
    assert IsLastDot("a.txt.wrl", 5);
    assert IsLastDot("scene.WrL", 5);
    assert IsLastDot("scene.X3Dv", 5);
  }

  /** The suffix lengths 3 and 4 exclude each other. */
  lemma NeverBoth(path: string)
    ensures !(IsFileWrlVrml97Ext(path) && IsFileX3dvClassicVrmlExt(path))
  {
  }

  /**
   * ConvertVrmlFileToX3dXmlFile: `translated` stands for what reading the file,
   * parsing it and saving the X3D document produce (empty when any of that fails).
   */
  function ConvertVrmlFileToX3dXml(path: string, translated: string): (out: string)
    ensures !IsFileWrlVrml97Ext(path) && !IsFileX3dvClassicVrmlExt(path) ==> out == ""
    ensures IsFileWrlVrml97Ext(path) || IsFileX3dvClassicVrmlExt(path) ==> out == translated
  {
    if IsFileWrlVrml97Ext(path) || IsFileX3dvClassicVrmlExt(path) then translated else ""
  }
}
