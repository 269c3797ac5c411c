/**
 * The node tree of the scene, kept as an arena: `nodes[i].children` holds
 * indices into the arena, `nodes[i].parent` the index of its parent. The
 * searches and the node count the importer runs over it.
 */
module SceneTree {
  import opened Common
  import opened SceneTypes

  /** Every child index lies after its parent's index and inside the arena. */
  predicate Ordered(nodes: seq<Node>) {
    forall n, i :: 0 <= n < |nodes| && 0 <= i < |nodes[n].children| ==> n < nodes[n].children[i] < |nodes|
  }

  /** Every child's mParent is the node whose child array holds it. */
  predicate ParentsLinked(nodes: seq<Node>)
    requires Ordered(nodes)
  {
    forall n, i :: 0 <= n < |nodes| && 0 <= i < |nodes[n].children| ==> nodes[nodes[n].children[i]].parent == Some(n)
  }

  /** No node lists the same child twice. */
  predicate ChildrenDistinct(nodes: seq<Node>) {
    forall n, i, j :: 0 <= n < |nodes| && 0 <= i < j < |nodes[n].children| ==> nodes[n].children[i] != nodes[n].children[j]
  }

  predicate Tree(nodes: seq<Node>) {
    Ordered(nodes) && ParentsLinked(nodes) && ChildrenDistinct(nodes)
  }

  predicate Within(nodes: seq<Node>, lo: nat, cs: seq<nat>) {
    forall j :: 0 <= j < |cs| ==> lo < cs[j] < |nodes|
  }

  /** The nodes below `n`, `n` first, each child's subtree in child order. */
  function Preorder(nodes: seq<Node>, n: nat): (r: seq<nat>)
    requires Ordered(nodes) && n < |nodes|
    ensures |r| >= 1 && r[0] == n
    ensures forall j :: 0 <= j < |r| ==> n <= r[j] < |nodes|
    decreases |nodes| - n, 1
  {
    [n] + PreorderList(nodes, n, nodes[n].children)
  }

  function PreorderList(nodes: seq<Node>, lo: nat, cs: seq<nat>): (r: seq<nat>)
    requires Ordered(nodes) && Within(nodes, lo, cs)
    ensures forall j :: 0 <= j < |r| ==> lo < r[j] < |nodes|
    decreases |nodes| - lo, 0, |cs|
  {
    if |cs| == 0 then []
    else PreorderList(nodes, lo, cs[..|cs| - 1]) + Preorder(nodes, cs[|cs| - 1])
  }

  /** CountNodesInHierarchy: this node plus the counts of its children. */
  function Count(nodes: seq<Node>, n: nat): nat
    requires Ordered(nodes) && n < |nodes|
    decreases |nodes| - n, 1
  {
    1 + CountList(nodes, n, nodes[n].children)
  }

  function CountList(nodes: seq<Node>, lo: nat, cs: seq<nat>): nat
    requires Ordered(nodes) && Within(nodes, lo, cs)
    decreases |nodes| - lo, 0, |cs|
  {
    if |cs| == 0 then 0 else CountList(nodes, lo, cs[..|cs| - 1]) + Count(nodes, cs[|cs| - 1])
  }

  /** The count is the number of nodes a preorder walk visits. */
  lemma {:induction false} CountIsPreorderLength(nodes: seq<Node>, n: nat)
    requires Ordered(nodes) && n < |nodes|
    ensures Count(nodes, n) == |Preorder(nodes, n)|
    decreases |nodes| - n, 1
  {
    CountListIsPreorderLength(nodes, n, nodes[n].children);
  }

  lemma {:induction false} CountListIsPreorderLength(nodes: seq<Node>, lo: nat, cs: seq<nat>)
    requires Ordered(nodes) && Within(nodes, lo, cs)
    ensures CountList(nodes, lo, cs) == |PreorderList(nodes, lo, cs)|
    decreases |nodes| - lo, 0, |cs|
  {
    if |cs| > 0 {
      CountListIsPreorderLength(nodes, lo, cs[..|cs| - 1]);
      CountIsPreorderLength(nodes, cs[|cs| - 1]);
    }
  }

  /** A node is visited below a list of children exactly when it is visited below one of them. */
  lemma {:induction false} PreorderListMember(nodes: seq<Node>, lo: nat, cs: seq<nat>, x: nat)
    requires Ordered(nodes) && Within(nodes, lo, cs)
    ensures x in PreorderList(nodes, lo, cs) <==> exists j :: 0 <= j < |cs| && x in Preorder(nodes, cs[j])
    decreases |cs|
  {
    if |cs| > 0 {
      var init := cs[..|cs| - 1];
      PreorderListMember(nodes, lo, init, x);
      assert forall j :: 0 <= j < |init| ==> init[j] == cs[j];
    }
  }

  /** The walk from a child is part of the walk from its parent. */
  lemma PreorderChild(nodes: seq<Node>, n: nat, i: nat)
    requires Ordered(nodes) && n < |nodes| && i < |nodes[n].children|
    ensures forall x :: x in Preorder(nodes, nodes[n].children[i]) ==> x in Preorder(nodes, n)
  {
    forall x | x in Preorder(nodes, nodes[n].children[i])
      ensures x in Preorder(nodes, n)
    {
      PreorderListMember(nodes, n, nodes[n].children, x);
    }
  }

  /** The walk from any visited node stays inside the walk it was visited by. */
  lemma {:induction false} PreorderClosed(nodes: seq<Node>, n: nat, y: nat)
    requires Ordered(nodes) && n < |nodes| && y in Preorder(nodes, n)
    ensures y < |nodes| && forall x :: x in Preorder(nodes, y) ==> x in Preorder(nodes, n)
    decreases |nodes| - n
  {
    if y != n {
      var cs := nodes[n].children;
      PreorderListMember(nodes, n, cs, y);
      var j :| 0 <= j < |cs| && y in Preorder(nodes, cs[j]);
      PreorderClosed(nodes, cs[j], y);
      PreorderChild(nodes, n, j);
    }
  }

  /** A child of a visited node is visited. */
  lemma ChildVisited(nodes: seq<Node>, root: nat, p: nat, i: nat)
    requires Ordered(nodes) && root < |nodes| && p in Preorder(nodes, root)
    requires p < |nodes| && i < |nodes[p].children|
    ensures nodes[p].children[i] in Preorder(nodes, root)
  {
    PreorderClosed(nodes, root, p);
    PreorderChild(nodes, p, i);
    assert Preorder(nodes, nodes[p].children[i])[0] == nodes[p].children[i];
  }

  /** In a tree, every visited node but the start has its parent visited too, at a smaller index. */
  lemma {:induction false} PreorderParent(nodes: seq<Node>, c: nat, x: nat)
    requires Tree(nodes) && c < |nodes| && x in Preorder(nodes, c) && x != c
    ensures nodes[x].parent.Some? && nodes[x].parent.value < x && nodes[x].parent.value in Preorder(nodes, c)
    decreases |nodes| - c
  {
    var cs := nodes[c].children;
    PreorderListMember(nodes, c, cs, x);
    var j :| 0 <= j < |cs| && x in Preorder(nodes, cs[j]);
    if x == cs[j] {
      assert Preorder(nodes, c)[0] == c;
    } else {
      PreorderParent(nodes, cs[j], x);
      PreorderChild(nodes, c, j);
    }
  }

  /** In a tree, the walks from two different children of a node share no node. */
  lemma {:induction false} SiblingsDisjoint(nodes: seq<Node>, n: nat, i: nat, j: nat, x: nat)
    requires Tree(nodes) && n < |nodes| && i < j < |nodes[n].children|
    ensures !(x in Preorder(nodes, nodes[n].children[i]) && x in Preorder(nodes, nodes[n].children[j]))
    decreases x
  {
    var c1, c2 := nodes[n].children[i], nodes[n].children[j];
    if x in Preorder(nodes, c1) && x in Preorder(nodes, c2) {
      if x == c1 {
        PreorderParent(nodes, c2, x);
        assert false;
      } else if x == c2 {
        PreorderParent(nodes, c1, x);
        assert false;
      } else {
        PreorderParent(nodes, c1, x);
        PreorderParent(nodes, c2, x);
        SiblingsDisjoint(nodes, n, i, j, nodes[x].parent.value);
      }
    }
  }

  /** In a tree, the walk visits no node twice. */
  lemma {:induction false} PreorderOnce(nodes: seq<Node>, n: nat, x: nat)
    requires Tree(nodes) && n < |nodes|
    ensures multiset(Preorder(nodes, n))[x] <= 1
    decreases |nodes| - n, 1
  {
    var cs := nodes[n].children;
    PreorderListOnce(nodes, n, |cs|, x);
    assert cs[..|cs|] == cs;
    if x == n {
      assert x !in PreorderList(nodes, n, cs);
    }
  }

  lemma {:induction false} PreorderListOnce(nodes: seq<Node>, n: nat, k: nat, x: nat)
    requires Tree(nodes) && n < |nodes| && k <= |nodes[n].children|
    ensures multiset(PreorderList(nodes, n, nodes[n].children[..k]))[x] <= 1
    decreases |nodes| - n, 0, k
  {
    if k > 0 {
      var cs := nodes[n].children;
      var init := cs[..k - 1];
      assert cs[..k][..k - 1] == init;
      var a: seq<nat> := PreorderList(nodes, n, init);
      var b: seq<nat> := Preorder(nodes, cs[k - 1]);
      assert PreorderList(nodes, n, cs[..k]) == a + b;
      assert multiset(a + b) == multiset(a) + multiset(b);
      PreorderListOnce(nodes, n, k - 1, x);
      PreorderOnce(nodes, cs[k - 1], x);
      if x in a && x in b {
        PreorderListMember(nodes, n, init, x);
        var j :| 0 <= j < |init| && x in Preorder(nodes, init[j]);
        SiblingsDisjoint(nodes, n, j, k - 1, x);
      }
    }
  }

  /** In a tree, every node the walk reaches is visited exactly once. */
  lemma PreorderVisitsOnce(nodes: seq<Node>, n: nat, x: nat)
    requires Tree(nodes) && n < |nodes| && x in Preorder(nodes, n)
    ensures multiset(Preorder(nodes, n))[x] == 1
  {
    PreorderOnce(nodes, n, x);
  }

  /** The search, when it hits, returns a node the walk visits. */
  lemma FindVisited(nodes: seq<Node>, n: nat, q: Query)
    requires Ordered(nodes) && n < |nodes|
    ensures Find(nodes, n, q).Some? ==> Find(nodes, n, q).value in Preorder(nodes, n)
  {
    FindIsFirstInPreorder(nodes, n, q);
  }

  /** What a search looks for in a node name. */
  datatype Query =
    | EntityPrefix(prefix: string)   // FindNodeByIFCEntityType
    | StoreyFor(storeyID: nat)       // the storey lookup of AssignMeshesToHierarchy

  predicate Matches(name: string, q: Query) {
    match q
    case EntityPrefix(p) => Contains(name, p)
    case StoreyFor(id) =>
      Contains(name, "IFC_BuildingStorey")
      || (Contains(name, "Erdgeschoss") && id == 596)
      || (Contains(name, "Dachgeschoss") && id == 211330)
  }

  /** The recursive search: this node if it matches, otherwise the first hit among the children in order. */
  function Find(nodes: seq<Node>, n: nat, q: Query): (r: Option<nat>)
    requires Ordered(nodes) && n < |nodes|
    ensures r.Some? ==> n <= r.value < |nodes| && Matches(nodes[r.value].name, q)
    decreases |nodes| - n, 1
  {
    if Matches(nodes[n].name, q) then Some(n) else FindList(nodes, n, nodes[n].children, q)
  }

  function FindList(nodes: seq<Node>, lo: nat, cs: seq<nat>, q: Query): (r: Option<nat>)
    requires Ordered(nodes) && Within(nodes, lo, cs)
    ensures r.Some? ==> lo < r.value < |nodes| && Matches(nodes[r.value].name, q)
    decreases |nodes| - lo, 0, |cs|
  {
    if |cs| == 0 then None
    else
      match FindList(nodes, lo, cs[..|cs| - 1], q)
      case Some(x) => Some(x)
      case None => Find(nodes, cs[|cs| - 1], q)
  }

  /** A hit among the first `j` children is the hit among all of them. */
  lemma {:induction false} FindListHitKept(nodes: seq<Node>, lo: nat, cs: seq<nat>, j: nat, q: Query)
    requires Ordered(nodes) && Within(nodes, lo, cs) && j <= |cs|
    requires FindList(nodes, lo, cs[..j], q).Some?
    ensures FindList(nodes, lo, cs, q) == FindList(nodes, lo, cs[..j], q)
    decreases |cs|
  {
    if j < |cs| {
      assert cs[..|cs| - 1][..j] == cs[..j];
      FindListHitKept(nodes, lo, cs[..|cs| - 1], j, q);
    } else {
      assert cs[..j] == cs;
    }
  }

  /** Past a prefix without a hit, the next child's search decides. */
  lemma FindListStep(nodes: seq<Node>, lo: nat, cs: seq<nat>, i: nat, q: Query)
    requires Ordered(nodes) && Within(nodes, lo, cs) && i < |cs|
    requires FindList(nodes, lo, cs[..i], q).None?
    ensures FindList(nodes, lo, cs[..i + 1], q) == Find(nodes, cs[i], q)
  {
    assert cs[..i + 1][..i] == cs[..i];
  }

  /** The first element of `xs` whose node matches. */
  function FirstMatch(nodes: seq<Node>, xs: seq<nat>, q: Query): (r: Option<nat>)
    requires forall j :: 0 <= j < |xs| ==> xs[j] < |nodes|
    ensures r.Some? ==> r.value in xs && Matches(nodes[r.value].name, q)
  {
    if |xs| == 0 then None
    else if Matches(nodes[xs[0]].name, q) then Some(xs[0])
    else FirstMatch(nodes, xs[1..], q)
  }

  lemma {:induction false} FirstMatchAppend(nodes: seq<Node>, a: seq<nat>, b: seq<nat>, q: Query)
    requires forall j :: 0 <= j < |a| ==> a[j] < |nodes|
    requires forall j :: 0 <= j < |b| ==> b[j] < |nodes|
    ensures FirstMatch(nodes, a + b, q) == if FirstMatch(nodes, a, q).Some? then FirstMatch(nodes, a, q) else FirstMatch(nodes, b, q)
  {
    if |a| > 0 {
      assert (a + b)[1..] == a[1..] + b;
      FirstMatchAppend(nodes, a[1..], b, q);
    } else {
      assert a + b == b;
    }
  }

  /** The search returns the first matching node of the preorder walk, and None when no visited node matches. */
  lemma {:induction false} FindIsFirstInPreorder(nodes: seq<Node>, n: nat, q: Query)
    requires Ordered(nodes) && n < |nodes|
    ensures Find(nodes, n, q) == FirstMatch(nodes, Preorder(nodes, n), q)
    decreases |nodes| - n, 1
  {
    var rest := PreorderList(nodes, n, nodes[n].children);
    FindListIsFirstInPreorder(nodes, n, nodes[n].children, q);
    assert ([n] + rest)[1..] == rest;
  }

  lemma {:induction false} FindListIsFirstInPreorder(nodes: seq<Node>, lo: nat, cs: seq<nat>, q: Query)
    requires Ordered(nodes) && Within(nodes, lo, cs)
    ensures FindList(nodes, lo, cs, q) == FirstMatch(nodes, PreorderList(nodes, lo, cs), q)
    decreases |nodes| - lo, 0, |cs|
  {
    if |cs| > 0 {
      var init := cs[..|cs| - 1];
      FindListIsFirstInPreorder(nodes, lo, init, q);
      FindIsFirstInPreorder(nodes, cs[|cs| - 1], q);
      FirstMatchAppend(nodes, PreorderList(nodes, lo, init), Preorder(nodes, cs[|cs| - 1]), q);
    }
  }

  /** CountNodesInHierarchy. */
  method CountNodesInHierarchy(scene: Scene, node: nat) returns (count: nat)
    requires Ordered(scene.nodes) && node < |scene.nodes|
    ensures count == Count(scene.nodes, node)
    decreases |scene.nodes| - node
  {
    count := 1;
    var children := scene.nodes[node].children;
    for i := 0 to |children|
      invariant count == 1 + CountList(scene.nodes, node, children[..i])
    {
      assert children[..i + 1][..i] == children[..i];
      var sub := CountNodesInHierarchy(scene, children[i]);
      count := count + sub;
    }
    assert children[..|children|] == children;
  }

  /** The name test of the search: the entity prefix, or the storey test of the findStorey lambda. */
  method NameMatches(nodeName: string, q: Query) returns (hit: bool)
    ensures hit == Matches(nodeName, q)
  {
    match q {
      case EntityPrefix(p) =>
        hit := FindFrom(nodeName, p, 0).Some?;
      case StoreyFor(targetStoreyID) =>
        hit := FindFrom(nodeName, "IFC_BuildingStorey", 0).Some?
               || (FindFrom(nodeName, "Erdgeschoss", 0).Some? && targetStoreyID == 596)
               || (FindFrom(nodeName, "Dachgeschoss", 0).Some? && targetStoreyID == 211330);
    }
  }

  /**
   * The recursive search both node lookups run: the storey lookup of
   * AssignMeshesToHierarchy and FindNodeByIFCEntityType.
   */
  method FindNode(scene: Scene, node: nat, q: Query) returns (found: Option<nat>)
    requires Ordered(scene.nodes) && node < |scene.nodes|
    ensures found == Find(scene.nodes, node, q)
    decreases |scene.nodes| - node, 1
  {
    var hit := NameMatches(scene.nodes[node].name, q);
    if hit {
      return Some(node);
    }
    found := FindInChildren(scene, node, q);
  }

  /** The search's loop over the children of `node`, stopping at the first hit. */
  method FindInChildren(scene: Scene, node: nat, q: Query) returns (found: Option<nat>)
    requires Ordered(scene.nodes) && node < |scene.nodes|
    ensures found == FindList(scene.nodes, node, scene.nodes[node].children, q)
    decreases |scene.nodes| - node, 0
  {
    var children := scene.nodes[node].children;
    assert Within(scene.nodes, node, children);
    for i := 0 to |children|
      invariant FindList(scene.nodes, node, children[..i], q).None?
    {
      FindListStep(scene.nodes, node, children, i, q);
      var sub := FindNode(scene, children[i], q);
      if sub.Some? {
        FindListHitKept(scene.nodes, node, children, i + 1, q);
        return sub;
      }
    }
    assert children[..|children|] == children;
    return None;
  }

  /** FindNodeByIFCEntityType: the first node of the preorder walk whose name contains the prefix. */
  method FindNodeByIFCEntityType(scene: Scene, rootNode: nat, entityPrefix: string) returns (found: Option<nat>)
    requires Ordered(scene.nodes) && rootNode < |scene.nodes|
    ensures found == FirstMatch(scene.nodes, Preorder(scene.nodes, rootNode), EntityPrefix(entityPrefix))
  {
    found := FindNode(scene, rootNode, EntityPrefix(entityPrefix));
    FindIsFirstInPreorder(scene.nodes, rootNode, EntityPrefix(entityPrefix));
  }

  /** The name test of FindSemanticParentForUnassignedItems. */
  predicate IsBuildingName(s: string) {
    Contains(s, "IFC_Building") || Contains(s, "Building")
  }

  /** The first of the two tests adds nothing: a name passes exactly when it contains `Building`. */
  lemma IsBuildingNameIff(s: string)
    ensures IsBuildingName(s) <==> Contains(s, "Building")
  {
    if Contains(s, "IFC_Building") {
      ContainsIff(s, "IFC_Building");
      var k: nat :| OccursAt(s, "IFC_Building", k);
      assert s[k + 4..k + 12] == s[k..k + 12][4..12];
      assert OccursAt(s, "Building", k + 4);
      ContainsIff(s, "Building");
    }
  }

  predicate HasBuildingChild(nodes: seq<Node>, g: nat)
    requires g < |nodes|
  {
    exists k :: 0 <= k < |nodes[g].children| && nodes[g].children[k] < |nodes| && IsBuildingName(nodes[nodes[g].children[k]].name)
  }

  /** The first of `gs` that has a child whose name passes the building test. */
  function FirstBuildingHolder(nodes: seq<Node>, gs: seq<nat>): (r: Option<nat>)
    requires forall j :: 0 <= j < |gs| ==> gs[j] < |nodes|
    ensures r.Some? ==> exists j :: 0 <= j < |gs| && gs[j] == r.value && HasBuildingChild(nodes, gs[j])
                                    && forall k :: 0 <= k < j ==> !HasBuildingChild(nodes, gs[k])
    ensures r.None? <==> forall j :: 0 <= j < |gs| ==> !HasBuildingChild(nodes, gs[j])
  {
    if |gs| == 0 then None
    else if HasBuildingChild(nodes, gs[0]) then Some(gs[0])
    else
      var r := FirstBuildingHolder(nodes, gs[1..]);
      assert forall j :: 1 <= j < |gs| ==> gs[j] == gs[1..][j - 1];
      r
  }

  /**
   * FindSemanticParentForUnassignedItems: the first grandchild, under the
   * root's first child, that has a building child; otherwise that first
   * child; otherwise the root itself.
   */
  function SemanticParent(nodes: seq<Node>, root: nat): (p: nat)
    requires Ordered(nodes) && root < |nodes|
    ensures p < |nodes|
    ensures |nodes[root].children| == 0 <==> p == root
    ensures |nodes[root].children| > 0 ==>
              var c := nodes[root].children[0];
              (p == c <==> forall j :: 0 <= j < |nodes[c].children| ==> !HasBuildingChild(nodes, nodes[c].children[j]))
              && (p != c ==> p in nodes[c].children && HasBuildingChild(nodes, p))
  {
    if |nodes[root].children| == 0 then root
    else
      var c := nodes[root].children[0];
      match FirstBuildingHolder(nodes, nodes[c].children)
      case None => c
      case Some(g) => g
  }

  /** The semantic parent is a node the walk from the root visits. */
  lemma SemanticParentVisited(nodes: seq<Node>, root: nat)
    requires Ordered(nodes) && root < |nodes|
    ensures SemanticParent(nodes, root) in Preorder(nodes, root)
  {
    var p := SemanticParent(nodes, root);
    assert Preorder(nodes, root)[0] == root;
    if p != root {
      var c := nodes[root].children[0];
      ChildVisited(nodes, root, root, 0);
      if p != c {
        var j :| 0 <= j < |nodes[c].children| && nodes[c].children[j] == p;
        ChildVisited(nodes, root, c, j);
      }
    }
  }

  /** The building test on one node, child by child. */
  method HasBuildings(scene: Scene, grandchild: nat) returns (hasBuildings: bool)
    requires Ordered(scene.nodes) && grandchild < |scene.nodes|
    ensures hasBuildings == HasBuildingChild(scene.nodes, grandchild)
  {
    hasBuildings := false;
    var children := scene.nodes[grandchild].children;
    for k := 0 to |children|
      invariant forall j :: 0 <= j < k ==> !IsBuildingName(scene.nodes[children[j]].name)
    {
      var childName := scene.nodes[children[k]].name;
      if FindFrom(childName, "IFC_Building", 0).Some? || FindFrom(childName, "Building", 0).Some? {
        hasBuildings := true;
        break;
      }
    }
  }

  /**
   * FindSemanticParentForUnassignedItems. The source loops over the root's
   * children but returns while handling the first one (a child is never the
   * root), so only that child is examined here.
   */
  method FindSemanticParentForUnassignedItems(scene: Scene, rootNode: nat) returns (parent: nat)
    requires Ordered(scene.nodes) && rootNode < |scene.nodes|
    ensures parent == SemanticParent(scene.nodes, rootNode)
  {
    var rootChildren := scene.nodes[rootNode].children;
    if |rootChildren| == 0 {
      return rootNode;
    }
    var child := rootChildren[0];
    var grandchildren := scene.nodes[child].children;
    for j := 0 to |grandchildren|
      invariant forall k :: 0 <= k < j ==> !HasBuildingChild(scene.nodes, grandchildren[k])
    {
      var hasBuildings := HasBuildings(scene, grandchildren[j]);
      if hasBuildings {
        return grandchildren[j];
      }
    }
    return child;
  }
}
