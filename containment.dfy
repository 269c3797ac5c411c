/**
 * PopulateSpatialContainmentMap: the element -> spatial structure index built
 * from the IFCRELCONTAINEDINSPATIALSTRUCTURE relations of the model.
 */
module Containment {
  import opened Common

  /**
   * One containment relation as the loader reads it: its RelatingStructure
   * (argument 5) and its RelatedElements (argument 4), None where that read
   * throws; each element reference is None when reading it throws.
   */
  datatype ContainmentRel = ContainmentRel(relatingStructure: Option<nat>, relatedElements: Option<seq<Option<nat>>>)

  /** The writes `element -> s` made for the references before the first unreadable one. */
  function RefWrites(refs: seq<Option<nat>>, s: nat): seq<(nat, nat)> {
    if |refs| == 0 then []
    else
      match refs[0]
      case None => []
      case Some(x) => [(x, s)] + RefWrites(refs[1..], s)
  }

  /**
   * The writes are exactly the readable prefix of the references, each
   * paired with the relation's structure, and they stop at an unreadable one.
   */
  lemma {:induction false} RefWritesPrefix(refs: seq<Option<nat>>, s: nat)
    ensures var ws := RefWrites(refs, s);
            |ws| <= |refs|
            && (forall k :: 0 <= k < |ws| ==> refs[k] == Some(ws[k].0) && ws[k].1 == s)
            && (|ws| < |refs| ==> refs[|ws|].None?)
  {
    if |refs| > 0 && refs[0].Some? {
      RefWritesPrefix(refs[1..], s);
    }
  }

  /** The writes of one relation: none when either argument read throws. */
  function RelWrites(r: ContainmentRel): seq<(nat, nat)> {
    if r.relatingStructure.None? || r.relatedElements.None? then []
    else RefWrites(r.relatedElements.value, r.relatingStructure.value)
  }

  /** The writes of all relations, in the order GetExpressIDsWithType lists them. */
  function AllWrites(rels: seq<ContainmentRel>): seq<(nat, nat)> {
    if |rels| == 0 then [] else AllWrites(rels[..|rels| - 1]) + RelWrites(rels[|rels| - 1])
  }

  /** `elementToStorey[elementID] = relatingStructure`, write after write. */
  function ApplyWrites(m: map<nat, nat>, ws: seq<(nat, nat)>): map<nat, nat> {
    if |ws| == 0 then m else ApplyWrites(m, ws[..|ws| - 1])[ws[|ws| - 1].0 := ws[|ws| - 1].1]
  }

  /** The map PopulateSpatialContainmentMap returns. */
  function ContainmentMap(rels: seq<ContainmentRel>): map<nat, nat> {
    ApplyWrites(map[], AllWrites(rels))
  }

  /**
   * Last writer wins: an element is a key exactly when it was a key before
   * or some write names it, and its structure is the one of the last write
   * naming it; an element no write names keeps its old entry.
   */
  lemma {:induction false} LastWriterWins(m: map<nat, nat>, ws: seq<(nat, nat)>, x: nat)
    ensures x in ApplyWrites(m, ws) <==> x in m || exists i :: 0 <= i < |ws| && ws[i].0 == x
    ensures (exists i :: 0 <= i < |ws| && ws[i].0 == x) ==>
              exists i :: 0 <= i < |ws| && ws[i].0 == x && ApplyWrites(m, ws)[x] == ws[i].1
                          && forall j :: i < j < |ws| ==> ws[j].0 != x
    ensures (forall i :: 0 <= i < |ws| ==> ws[i].0 != x) && x in m ==> ApplyWrites(m, ws)[x] == m[x]
  {
    if |ws| > 0 {
      var init := ws[..|ws| - 1];
      var last := ws[|ws| - 1];
      LastWriterWins(m, init, x);
      if last.0 != x {
        if exists i :: 0 <= i < |init| && init[i].0 == x {
          var i :| 0 <= i < |init| && init[i].0 == x && ApplyWrites(m, init)[x] == init[i].1
                   && forall j :: i < j < |init| ==> init[j].0 != x;
          assert ws[i] == init[i];
          assert forall j :: i < j < |ws| ==> ws[j].0 != x by {
            forall j | i < j < |ws|
              ensures ws[j].0 != x
            {
              if j < |init| {
                assert ws[j] == init[j];
              }
            }
          }
        }
        if exists i :: 0 <= i < |ws| && ws[i].0 == x {
          var i :| 0 <= i < |ws| && ws[i].0 == x;
          assert init[i] == ws[i];
        }
        if forall i :: 0 <= i < |ws| ==> ws[i].0 != x {
          forall i | 0 <= i < |init|
            ensures init[i].0 != x
          {
            assert init[i] == ws[i];
          }
        }
      } else {
        assert ws[|ws| - 1].0 == x;
      }
    }
  }

  /** Every write of one relation is among the writes of all relations. */
  lemma {:induction false} AllWritesIncludes(rels: seq<ContainmentRel>, j: nat, w: (nat, nat))
    requires j < |rels| && w in RelWrites(rels[j])
    ensures w in AllWrites(rels)
  {
    var n := |rels| - 1;
    var init := rels[..n];
    var done := AllWrites(init);
    var lastWrites := RelWrites(rels[n]);
    assert AllWrites(rels) == done + lastWrites;
    if j < n {
      assert init[j] == rels[j];
      AllWritesIncludes(init, j, w);
      assert w in done;
    } else {
      assert w in lastWrites;
    }
  }

  /** Every write among the writes of all relations is made by one of them. */
  lemma {:induction false} AllWritesOrigin(rels: seq<ContainmentRel>, w: (nat, nat))
    requires w in AllWrites(rels)
    ensures exists j :: 0 <= j < |rels| && w in RelWrites(rels[j])
  {
    var n := |rels| - 1;
    var init := rels[..n];
    assert AllWrites(rels) == AllWrites(init) + RelWrites(rels[n]);
    if w in AllWrites(init) {
      AllWritesOrigin(init, w);
      var j :| 0 <= j < |init| && w in RelWrites(init[j]);
      assert rels[j] == init[j];
    } else {
      assert w in RelWrites(rels[n]);
    }
  }

  /**
   * Every element of a relation whose reads all succeed is a key of the
   * index, and every key comes from a readable prefix of some relation.
   */
  lemma ContainmentDomain(rels: seq<ContainmentRel>, x: nat)
    ensures x in ContainmentMap(rels) <==> exists s :: (x, s) in AllWrites(rels)
    ensures forall j :: 0 <= j < |rels| && rels[j].relatingStructure.Some? && rels[j].relatedElements.Some?
                        && Some(x) in rels[j].relatedElements.value
                        && (forall k :: 0 <= k < |rels[j].relatedElements.value| ==> rels[j].relatedElements.value[k].Some?)
                   ==> x in ContainmentMap(rels)
  {
    var ws := AllWrites(rels);
    LastWriterWins(map[], ws, x);
    if exists s :: (x, s) in ws {
      var s :| (x, s) in ws;
      var i :| 0 <= i < |ws| && ws[i] == (x, s);
      assert ws[i].0 == x;
    }
    if exists i :: 0 <= i < |ws| && ws[i].0 == x {
      var i :| 0 <= i < |ws| && ws[i].0 == x;
      assert (x, ws[i].1) in ws;
    }
    forall j | 0 <= j < |rels| && rels[j].relatingStructure.Some? && rels[j].relatedElements.Some?
                 && Some(x) in rels[j].relatedElements.value
                 && (forall k :: 0 <= k < |rels[j].relatedElements.value| ==> rels[j].relatedElements.value[k].Some?)
      ensures x in ContainmentMap(rels)
    {
      var refs := rels[j].relatedElements.value;
      var s := rels[j].relatingStructure.value;
      var rw := RefWrites(refs, s);
      RefWritesPrefix(refs, s);
      assert |rw| == |refs|;
      var k :| 0 <= k < |refs| && refs[k] == Some(x);
      assert rw[k] == (x, s);
      assert (x, s) in RelWrites(rels[j]);
      AllWritesIncludes(rels, j, (x, s));
      assert (x, s) in ws;
    }
  }

  /** One more readable reference adds one write. */
  lemma {:induction false} RefWritesSnoc(refs: seq<Option<nat>>, k: nat, s: nat)
    requires k < |refs| && refs[k].Some?
    requires forall j :: 0 <= j < k ==> refs[j].Some?
    ensures RefWrites(refs[..k + 1], s) == RefWrites(refs[..k], s) + [(refs[k].value, s)]
  {
    if k > 0 {
      RefWritesSnoc(refs[1..], k - 1, s);
      assert refs[..k + 1][1..] == refs[1..][..k];
      assert refs[..k][1..] == refs[1..][..k - 1];
    }
  }

  /** Reading stops at the first unreadable reference. */
  lemma {:induction false} RefWritesStop(refs: seq<Option<nat>>, k: nat, s: nat)
    requires k <= |refs| && (k == |refs| || refs[k].None?)
    requires forall j :: 0 <= j < k ==> refs[j].Some?
    ensures RefWrites(refs, s) == RefWrites(refs[..k], s)
  {
    if k == |refs| {
      assert refs[..k] == refs;
    } else if k > 0 {
      RefWritesStop(refs[1..], k - 1, s);
      assert refs[..k][1..] == refs[1..][..k - 1];
    }
  }

  /** PopulateSpatialContainmentMap, relation by relation and element by element. */
  method PopulateSpatialContainmentMap(spatialContainments: seq<ContainmentRel>) returns (elementToStorey: map<nat, nat>)
    ensures elementToStorey == ContainmentMap(spatialContainments)
  {
    elementToStorey := map[];
    for i := 0 to |spatialContainments|
      invariant elementToStorey == ApplyWrites(map[], AllWrites(spatialContainments[..i]))
    {
      assert spatialContainments[..i + 1][..i] == spatialContainments[..i];
      var rel := spatialContainments[i];
      assert AllWrites(spatialContainments[..i + 1]) == AllWrites(spatialContainments[..i]) + RelWrites(rel);
      if rel.relatingStructure.None? || rel.relatedElements.None? {
        assert RelWrites(rel) == [];
        assert AllWrites(spatialContainments[..i]) + [] == AllWrites(spatialContainments[..i]);
        continue;
      }
      var relatingStructure := rel.relatingStructure.value;
      var relatedElements := rel.relatedElements.value;
      ghost var done := AllWrites(spatialContainments[..i]);
      var k := 0;
      assert relatedElements[..0] == [];
      assert done + RefWrites(relatedElements[..0], relatingStructure) == done;
      while k < |relatedElements|
        invariant k <= |relatedElements|
        invariant forall j :: 0 <= j < k ==> relatedElements[j].Some?
        invariant elementToStorey == ApplyWrites(map[], done + RefWrites(relatedElements[..k], relatingStructure))
      {
        if relatedElements[k].None? {
          break;
        }
        var elementID := relatedElements[k].value;
        RefWritesSnoc(relatedElements, k, relatingStructure);
        ghost var before := done + RefWrites(relatedElements[..k], relatingStructure);
        assert done + RefWrites(relatedElements[..k + 1], relatingStructure) == before + [(elementID, relatingStructure)];
        assert (before + [(elementID, relatingStructure)])[..|before|] == before;
        elementToStorey := elementToStorey[elementID := relatingStructure];
        k := k + 1;
      }
      RefWritesStop(relatedElements, k, relatingStructure);
    }
    assert spatialContainments[..|spatialContainments|] == spatialContainments;
  }
}
