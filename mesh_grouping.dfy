/**
 * The first pass of AssignMeshesToHierarchy: every scene mesh goes either to
 * the list of the storey its element is contained in, or to the unassigned
 * list. The storey -> meshes table (an unordered_map in the importer) is a
 * sequence of (storey, mesh indices) pairs in the order the storeys were
 * first met.
 */
module MeshGrouping {
  import opened Common
  import opened ImporterCore

  datatype Grouping = Grouping(groups: seq<(nat, seq<nat>)>, unassigned: seq<nat>)

  /** The storey a mesh goes to: the containing structure of the element it was made from, if both are known. */
  function TargetStorey(meshMeta: map<nat, MeshMetadata>, elementToStorey: map<nat, nat>, i: nat): Option<nat> {
    if i in meshMeta && meshMeta[i].expressID in elementToStorey then Some(elementToStorey[meshMeta[i].expressID])
    else None
  }

  /** The position of storey `s` in the table, if it has one. */
  function GroupIndex(groups: seq<(nat, seq<nat>)>, s: nat): (r: Option<nat>)
    ensures r.Some? ==> r.value < |groups| && groups[r.value].0 == s
    ensures r.None? ==> forall a :: 0 <= a < |groups| ==> groups[a].0 != s
  {
    if |groups| == 0 then None
    else if groups[|groups| - 1].0 == s then Some(|groups| - 1)
    else GroupIndex(groups[..|groups| - 1], s)
  }

  /** `storeyToMeshes[s].push_back(i)`: a new entry for a storey not in the table yet. */
  function AddToGroup(groups: seq<(nat, seq<nat>)>, s: nat, i: nat): seq<(nat, seq<nat>)> {
    match GroupIndex(groups, s)
    case Some(a) => groups[a := (s, groups[a].1 + [i])]
    case None => groups + [(s, [i])]
  }

  /** Mesh `i` joins the list of its storey, or the unassigned list when it has none. */
  function Step(g: Grouping, target: Option<nat>, i: nat): Grouping {
    match target
    case Some(s) => g.(groups := AddToGroup(g.groups, s, i))
    case None => g.(unassigned := g.unassigned + [i])
  }

  /** The grouping of meshes `0..n`. */
  function Group(meshMeta: map<nat, MeshMetadata>, elementToStorey: map<nat, nat>, n: nat): Grouping {
    if n == 0 then Grouping([], [])
    else Step(Group(meshMeta, elementToStorey, n - 1), TargetStorey(meshMeta, elementToStorey, n - 1), n - 1)
  }

  /** The mesh lists of all groups, one after the other. */
  function Flatten(groups: seq<(nat, seq<nat>)>): seq<nat> {
    if |groups| == 0 then [] else Flatten(groups[..|groups| - 1]) + groups[|groups| - 1].1
  }

  /** `0, 1, ..., n - 1`. */
  function Range(n: nat): seq<nat> {
    if n == 0 then [] else Range(n - 1) + [n - 1]
  }

  lemma {:induction false} FlattenAppendTo(groups: seq<(nat, seq<nat>)>, a: nat, i: nat)
    requires a < |groups|
    ensures multiset(Flatten(groups[a := (groups[a].0, groups[a].1 + [i])]))
            == multiset(Flatten(groups)) + multiset{i}
  {
    var g2 := groups[a := (groups[a].0, groups[a].1 + [i])];
    var init := groups[..|groups| - 1];
    if a == |groups| - 1 {
      assert g2[..|g2| - 1] == init;
    } else {
      assert g2[..|g2| - 1] == init[a := (init[a].0, init[a].1 + [i])];
      FlattenAppendTo(init, a, i);
    }
  }

  lemma AddToGroupMultiset(groups: seq<(nat, seq<nat>)>, s: nat, i: nat)
    ensures multiset(Flatten(AddToGroup(groups, s, i))) == multiset(Flatten(groups)) + multiset{i}
  {
    match GroupIndex(groups, s)
    case Some(a) =>
      FlattenAppendTo(groups, a, i);
    case None =>
      var g2 := groups + [(s, [i])];
      assert g2[..|g2| - 1] == groups;
  }

  lemma StepMultiset(g: Grouping, target: Option<nat>, i: nat)
    ensures var g' := Step(g, target, i);
            multiset(Flatten(g'.groups) + g'.unassigned) == multiset(Flatten(g.groups) + g.unassigned) + multiset{i}
  {
    match target
    case Some(s) =>
      AddToGroupMultiset(g.groups, s, i);
    case None =>
      assert Flatten(g.groups) + (g.unassigned + [i]) == (Flatten(g.groups) + g.unassigned) + [i];
  }

  /** Every mesh lands in exactly one list: the lists together are a permutation of `0..n`. */
  lemma {:induction false} GroupPartition(meshMeta: map<nat, MeshMetadata>, elementToStorey: map<nat, nat>, n: nat)
    ensures var g := Group(meshMeta, elementToStorey, n);
            multiset(Flatten(g.groups) + g.unassigned) == multiset(Range(n))
  {
    if n > 0 {
      var last: nat := n - 1;
      var prev := Group(meshMeta, elementToStorey, last);
      GroupPartition(meshMeta, elementToStorey, last);
      assert Group(meshMeta, elementToStorey, n) == Step(prev, TargetStorey(meshMeta, elementToStorey, last), last);
      StepMultiset(prev, TargetStorey(meshMeta, elementToStorey, last), last);
      RangeMultiset(n);
    }
  }

  lemma RangeMultiset(n: nat)
    requires n > 0
    ensures multiset(Range(n)) == multiset(Range(n - 1)) + multiset{(n - 1) as nat}
  {
  }

  predicate Increasing(xs: seq<nat>) {
    forall j, k :: 0 <= j < k < |xs| ==> xs[j] < xs[k]
  }

  predicate KeysDistinct(groups: seq<(nat, seq<nat>)>) {
    forall a, b :: 0 <= a < b < |groups| ==> groups[a].0 != groups[b].0
  }

  predicate ListsIncreasing(groups: seq<(nat, seq<nat>)>) {
    forall a :: 0 <= a < |groups| ==> Increasing(groups[a].1)
  }

  /** A group's list holds exactly the meshes below `n` that go to its storey. */
  ghost predicate ListsExact(groups: seq<(nat, seq<nat>)>, meshMeta: map<nat, MeshMetadata>, elementToStorey: map<nat, nat>, n: nat) {
    (forall a, j :: 0 <= a < |groups| && 0 <= j < |groups[a].1| ==>
       groups[a].1[j] < n && TargetStorey(meshMeta, elementToStorey, groups[a].1[j]) == Some(groups[a].0))
    && (forall a, x: nat :: 0 <= a < |groups| && x < n && TargetStorey(meshMeta, elementToStorey, x) == Some(groups[a].0) ==>
          x in groups[a].1)
  }

  /** Every storey a mesh below `n` goes to has an entry. */
  ghost predicate KeysComplete(groups: seq<(nat, seq<nat>)>, meshMeta: map<nat, MeshMetadata>, elementToStorey: map<nat, nat>, n: nat) {
    forall x: nat :: x < n && TargetStorey(meshMeta, elementToStorey, x).Some? ==>
      exists a :: 0 <= a < |groups| && groups[a].0 == TargetStorey(meshMeta, elementToStorey, x).value
  }

  /** The unassigned list holds exactly the meshes below `n` with no storey. */
  ghost predicate UnassignedExact(unassigned: seq<nat>, meshMeta: map<nat, MeshMetadata>, elementToStorey: map<nat, nat>, n: nat) {
    (forall j :: 0 <= j < |unassigned| ==> unassigned[j] < n && TargetStorey(meshMeta, elementToStorey, unassigned[j]).None?)
    && (forall x: nat :: x < n && TargetStorey(meshMeta, elementToStorey, x).None? ==> x in unassigned)
  }

  /**
   * What the table means: no storey has two entries; a group's list holds
   * exactly the meshes below `n` that go to its storey, in increasing order;
   * every storey some mesh goes to has an entry; and the unassigned list
   * holds exactly the meshes with no storey, in increasing order.
   */
  ghost predicate GroupingValid(g: Grouping, meshMeta: map<nat, MeshMetadata>, elementToStorey: map<nat, nat>, n: nat) {
    KeysDistinct(g.groups) && ListsIncreasing(g.groups)
    && ListsExact(g.groups, meshMeta, elementToStorey, n)
    && KeysComplete(g.groups, meshMeta, elementToStorey, n)
    && Increasing(g.unassigned) && UnassignedExact(g.unassigned, meshMeta, elementToStorey, n)
  }

  lemma AppendToExistingValid(gs: seq<(nat, seq<nat>)>, meshMeta: map<nat, MeshMetadata>, elementToStorey: map<nat, nat>, n: nat, a: nat)
    requires KeysDistinct(gs) && ListsIncreasing(gs) && ListsExact(gs, meshMeta, elementToStorey, n)
    requires KeysComplete(gs, meshMeta, elementToStorey, n)
    requires a < |gs| && TargetStorey(meshMeta, elementToStorey, n) == Some(gs[a].0)
    ensures var gs2 := gs[a := (gs[a].0, gs[a].1 + [n])];
            KeysDistinct(gs2) && ListsIncreasing(gs2) && ListsExact(gs2, meshMeta, elementToStorey, n + 1)
            && KeysComplete(gs2, meshMeta, elementToStorey, n + 1)
  {
    var s := gs[a].0;
    var l := gs[a].1;
    var gs2 := gs[a := (s, l + [n])];
    assert forall j :: 0 <= j < |l| ==> l[j] < n;
    assert Increasing(l + [n]);
    forall b, j | 0 <= b < |gs2| && 0 <= j < |gs2[b].1|
      ensures gs2[b].1[j] < n + 1 && TargetStorey(meshMeta, elementToStorey, gs2[b].1[j]) == Some(gs2[b].0)
    {
      if b != a {
        assert gs2[b] == gs[b];
      } else if j < |l| {
        assert gs2[b].1[j] == l[j];
      }
    }
    forall b, x: nat | 0 <= b < |gs2| && x < n + 1 && TargetStorey(meshMeta, elementToStorey, x) == Some(gs2[b].0)
      ensures x in gs2[b].1
    {
      if b != a {
        assert gs2[b] == gs[b];
        assert gs[b].0 != s;
      } else if x < n {
        assert x in l;
      }
    }
    forall x: nat | x < n + 1 && TargetStorey(meshMeta, elementToStorey, x).Some?
      ensures exists b :: 0 <= b < |gs2| && gs2[b].0 == TargetStorey(meshMeta, elementToStorey, x).value
    {
      if x < n {
        var b :| 0 <= b < |gs| && gs[b].0 == TargetStorey(meshMeta, elementToStorey, x).value;
        assert gs2[b].0 == gs[b].0;
      } else {
        assert gs2[a].0 == s;
      }
    }
  }

  lemma AppendNewValid(gs: seq<(nat, seq<nat>)>, meshMeta: map<nat, MeshMetadata>, elementToStorey: map<nat, nat>, n: nat, s: nat)
    requires KeysDistinct(gs) && ListsIncreasing(gs) && ListsExact(gs, meshMeta, elementToStorey, n)
    requires KeysComplete(gs, meshMeta, elementToStorey, n)
    requires forall a :: 0 <= a < |gs| ==> gs[a].0 != s
    requires TargetStorey(meshMeta, elementToStorey, n) == Some(s)
    ensures var gs2 := gs + [(s, [n])];
            KeysDistinct(gs2) && ListsIncreasing(gs2) && ListsExact(gs2, meshMeta, elementToStorey, n + 1)
            && KeysComplete(gs2, meshMeta, elementToStorey, n + 1)
  {
    var gs2 := gs + [(s, [n])];
    forall b, j | 0 <= b < |gs2| && 0 <= j < |gs2[b].1|
      ensures gs2[b].1[j] < n + 1 && TargetStorey(meshMeta, elementToStorey, gs2[b].1[j]) == Some(gs2[b].0)
    {
      if b < |gs| {
        assert gs2[b] == gs[b];
      }
    }
    forall b, x: nat | 0 <= b < |gs2| && x < n + 1 && TargetStorey(meshMeta, elementToStorey, x) == Some(gs2[b].0)
      ensures x in gs2[b].1
    {
      if b < |gs| {
        assert gs2[b] == gs[b];
      } else {
        assert gs2[b].1 == [n];
      }
    }
    forall x: nat | x < n + 1 && TargetStorey(meshMeta, elementToStorey, x).Some?
      ensures exists b :: 0 <= b < |gs2| && gs2[b].0 == TargetStorey(meshMeta, elementToStorey, x).value
    {
      if x < n {
        var b :| 0 <= b < |gs| && gs[b].0 == TargetStorey(meshMeta, elementToStorey, x).value;
        assert gs2[b] == gs[b];
      } else {
        assert gs2[|gs|].0 == s;
      }
    }
  }

  lemma UnassignedGrow(u: seq<nat>, meshMeta: map<nat, MeshMetadata>, elementToStorey: map<nat, nat>, n: nat)
    requires Increasing(u) && UnassignedExact(u, meshMeta, elementToStorey, n)
    requires TargetStorey(meshMeta, elementToStorey, n).None?
    ensures Increasing(u + [n]) && UnassignedExact(u + [n], meshMeta, elementToStorey, n + 1)
  {
    assert forall j :: 0 <= j < |u| ==> u[j] < n;
    forall x: nat | x < n + 1 && TargetStorey(meshMeta, elementToStorey, x).None?
      ensures x in u + [n]
    {
      if x < n {
        assert x in u;
      } else {
        assert (u + [n])[|u|] == x;
      }
    }
  }

  lemma UnassignedKeep(u: seq<nat>, meshMeta: map<nat, MeshMetadata>, elementToStorey: map<nat, nat>, n: nat)
    requires UnassignedExact(u, meshMeta, elementToStorey, n)
    requires TargetStorey(meshMeta, elementToStorey, n).Some?
    ensures UnassignedExact(u, meshMeta, elementToStorey, n + 1)
  {
  }

  lemma ExactKeep(gs: seq<(nat, seq<nat>)>, meshMeta: map<nat, MeshMetadata>, elementToStorey: map<nat, nat>, n: nat)
    requires ListsExact(gs, meshMeta, elementToStorey, n) && KeysComplete(gs, meshMeta, elementToStorey, n)
    requires TargetStorey(meshMeta, elementToStorey, n).None?
    ensures ListsExact(gs, meshMeta, elementToStorey, n + 1) && KeysComplete(gs, meshMeta, elementToStorey, n + 1)
  {
  }

  lemma StepValid(g: Grouping, meshMeta: map<nat, MeshMetadata>, elementToStorey: map<nat, nat>, n: nat)
    requires GroupingValid(g, meshMeta, elementToStorey, n)
    ensures GroupingValid(Step(g, TargetStorey(meshMeta, elementToStorey, n), n), meshMeta, elementToStorey, n + 1)
  {
    var t := TargetStorey(meshMeta, elementToStorey, n);
    if t.Some? {
      UnassignedKeep(g.unassigned, meshMeta, elementToStorey, n);
      var slot := GroupIndex(g.groups, t.value);
      if slot.Some? {
        AppendToExistingValid(g.groups, meshMeta, elementToStorey, n, slot.value);
      } else {
        AppendNewValid(g.groups, meshMeta, elementToStorey, n, t.value);
      }
    } else {
      UnassignedGrow(g.unassigned, meshMeta, elementToStorey, n);
      ExactKeep(g.groups, meshMeta, elementToStorey, n);
    }
  }

  /** The table built over meshes `0..n` has the meaning GroupingValid states. */
  lemma {:induction false} GroupValid(meshMeta: map<nat, MeshMetadata>, elementToStorey: map<nat, nat>, n: nat)
    ensures GroupingValid(Group(meshMeta, elementToStorey, n), meshMeta, elementToStorey, n)
  {
    if n > 0 {
      var last: nat := n - 1;
      var prev := Group(meshMeta, elementToStorey, last);
      GroupValid(meshMeta, elementToStorey, last);
      StepValid(prev, meshMeta, elementToStorey, last);
      assert Group(meshMeta, elementToStorey, n) == Step(prev, TargetStorey(meshMeta, elementToStorey, last), last);
    }
  }

  /** The grouping loop of AssignMeshesToHierarchy over the scene's meshes. */
  method GroupMeshes(imp: Importer, numMeshes: nat) returns (storeyToMeshes: seq<(nat, seq<nat>)>, unassignedMeshes: seq<nat>)
    ensures Grouping(storeyToMeshes, unassignedMeshes) == Group(imp.meshToIFCMetadata, imp.elementToStoreyMap, numMeshes)
  {
    storeyToMeshes := [];
    unassignedMeshes := [];
    for i := 0 to numMeshes
      invariant Grouping(storeyToMeshes, unassignedMeshes) == Group(imp.meshToIFCMetadata, imp.elementToStoreyMap, i)
    {
      var expressID := 0;
      var hasExpressID := false;
      if i in imp.meshToIFCMetadata {
        expressID := imp.meshToIFCMetadata[i].expressID;
        hasExpressID := true;
      }
      if hasExpressID {
        if expressID in imp.elementToStoreyMap {
          var storeyID := imp.elementToStoreyMap[expressID];
          var slot := GroupIndex(storeyToMeshes, storeyID);
          if slot.Some? {
            storeyToMeshes := storeyToMeshes[slot.value := (storeyID, storeyToMeshes[slot.value].1 + [i])];
          } else {
            storeyToMeshes := storeyToMeshes + [(storeyID, [i])];
          }
        } else {
          unassignedMeshes := unassignedMeshes + [i];
        }
      } else {
        unassignedMeshes := unassignedMeshes + [i];
      }
    }
  }
}
