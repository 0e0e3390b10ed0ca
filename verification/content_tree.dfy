/**
 * The published-content tree as the navigation queries see it: every node knows its
 * parent, its path (the ids from the root marker -1 down to itself) and its level.
 * Queries take and return node ids; results are sequences whose order is only the
 * model's (what is proved about them is membership, multiplicity and size).
 */
module ContentTree {
  import opened Wrappers
  import opened Sequences

  /** The id standing for "no parent" at the head of every path. */
  const RootId := -1

  datatype Node = Node(
    id: int,
    parentId: Option<int>,
    path: seq<int>,
    level: nat,
    sortOrder: int,
    contentType: string,
    updateDate: nat,
    naviHide: bool)

  /** One snapshot: its nodes by id, and the ids in document order. */
  datatype Tree = Tree(order: seq<int>, nodes: map<int, Node>)

  function NodeOf(t: Tree, id: int): Node
    requires id in t.nodes
  {
    t.nodes[id]
  }

  predicate NodeShape(n: Node)
  {
    && n.id != RootId
    && |n.path| >= 2
    && n.path[0] == RootId
    && n.path[|n.path| - 1] == n.id
    && n.level == |n.path| - 1
  }

  /** A top-level node has path [-1, id]; any other node's path extends its parent's by its id. */
  predicate Linked(t: Tree, n: Node)
  {
    match n.parentId
    case None => |n.path| == 2
    case Some(p) => p in t.nodes && t.nodes[p].path + [n.id] == n.path
  }

  /** The node stored under `id` carries that id and a path consistent with its parent's. */
  predicate NodeOk(t: Tree, id: int)
    requires id in t.nodes
  {
    t.nodes[id].id == id && NodeShape(t.nodes[id]) && Linked(t, t.nodes[id])
  }

  /**
   * The document order lists every node once, and every node's path and level agree
   * with its parent's. The per-node facts are reached through `NodeFacts`, one node
   * at a time.
   */
  ghost predicate WellFormed(t: Tree)
  {
    && NoDup(t.order)
    && (forall x :: x in t.order <==> x in t.nodes)
    && forall id {:trigger NodeOk(t, id)} :: id in t.nodes ==> NodeOk(t, id)
  }

  lemma NodeFacts(t: Tree, id: int)
    requires WellFormed(t) && id in t.nodes
    ensures NodeOf(t, id).id == id && NodeShape(NodeOf(t, id)) && Linked(t, NodeOf(t, id))
  {
    assert NodeOk(t, id);
  }

  function PathOf(t: Tree, id: int): (p: seq<int>)
    requires WellFormed(t) && id in t.nodes
    ensures |p| >= 2 && p[0] == RootId && p[|p| - 1] == id
  {
    NodeFacts(t, id);
    NodeOf(t, id).path
  }

  function Level(t: Tree, id: int): (l: nat)
    requires WellFormed(t) && id in t.nodes
    ensures l >= 1 && l == |PathOf(t, id)| - 1
  {
    NodeFacts(t, id);
    NodeOf(t, id).level
  }

  function Parent(t: Tree, id: int): (r: Option<int>)
    requires WellFormed(t) && id in t.nodes
    ensures r.None? <==> Level(t, id) == 1
    ensures r.Some? ==> r.value in t.nodes && PathOf(t, r.value) + [id] == PathOf(t, id)
    ensures r.Some? ==> Level(t, r.value) + 1 == Level(t, id)
  {
    NodeFacts(t, id);
    var r := NodeOf(t, id).parentId;
    if r.Some? then
      NodeFacts(t, r.value);
      r
    else r
  }

  /** `x` is filed directly under `id`: its stored parent link names `id`. */
  predicate IsChildOf(t: Tree, x: int, id: int)
  {
    x in t.nodes && t.nodes[x].parentId == Some(id)
  }

  /** The stored parent link is what `Parent` reads. */
  lemma ChildOfMeansParent(t: Tree, x: int, id: int)
    requires WellFormed(t) && x in t.nodes
    ensures IsChildOf(t, x, id) <==> Parent(t, x) == Some(id)
  {
  }

  /** Every entry of a path after the root marker is a node whose own path is that prefix. */
  lemma {:induction false} PathEntry(t: Tree, id: int, k: nat)
    requires WellFormed(t) && id in t.nodes && 1 <= k < |PathOf(t, id)|
    ensures PathOf(t, id)[k] in t.nodes
    ensures PathOf(t, PathOf(t, id)[k]) == PathOf(t, id)[..k + 1]
    decreases Level(t, id)
  {
    var path := PathOf(t, id);
    if k == |path| - 1 {
      assert path[..k + 1] == path;
    } else {
      var p := Parent(t, id).value;
      assert path[k] == PathOf(t, p)[k];
      PathEntry(t, p, k);
      assert path[..k + 1] == PathOf(t, p)[..k + 1];
    }
  }

  /** Two nodes with the same path are the same node. */
  lemma PathDeterminesNode(t: Tree, a: int, b: int)
    requires WellFormed(t) && a in t.nodes && b in t.nodes
    ensures PathOf(t, a) == PathOf(t, b) ==> a == b
  {
  }

  /** `a` is `b` or one of `b`'s ancestors: it occurs on `b`'s path after the root marker. */
  predicate IsAncestorOrSelf(t: Tree, a: int, b: int)
    requires WellFormed(t) && a in t.nodes && b in t.nodes
  {
    a in PathOf(t, b)[1..]
  }

  /** `a` is a proper ancestor of `b`: it occurs on `b`'s path strictly between the marker and `b`. */
  predicate IsAncestor(t: Tree, a: int, b: int)
    requires WellFormed(t) && a in t.nodes && b in t.nodes
  {
    var p := PathOf(t, b);
    a in p[1..|p| - 1]
  }

  /** Among the nodes `s`, the proper ancestors of `b` are those listed inside its stored path. */
  lemma AncestorsAreInnerPath(t: Tree, b: int, inner: seq<int>, s: set<int>)
    requires WellFormed(t) && b in t.nodes && s <= t.nodes.Keys
    requires var p := t.nodes[b].path; |p| >= 2 && p[1..|p| - 1] == inner
    ensures forall a :: a in s ==> (IsAncestor(t, a, b) <==> a in inner)
  {
    assert PathOf(t, b) == t.nodes[b].path;
  }

  /** `a` is `b` or below it: `b`'s path is a prefix of `a`'s. */
  predicate IsDescendantOrSelf(t: Tree, a: int, b: int)
    requires WellFormed(t) && a in t.nodes && b in t.nodes
  {
    PathOf(t, b) <= PathOf(t, a)
  }

  /** `a` is strictly below `b`: `b` has the lower level and its path is a prefix of `a`'s. */
  predicate IsDescendant(t: Tree, a: int, b: int)
    requires WellFormed(t) && a in t.nodes && b in t.nodes
  {
    Level(t, b) < Level(t, a) && PathOf(t, b) <= PathOf(t, a)
  }

  /** Being on a node's path is the same as having a prefix of its path. */
  lemma AncestorOrSelfIsPathPrefix(t: Tree, a: int, b: int)
    requires WellFormed(t) && a in t.nodes && b in t.nodes
    ensures IsAncestorOrSelf(t, a, b) <==> PathOf(t, a) <= PathOf(t, b)
  {
    var pb := PathOf(t, b);
    if IsAncestorOrSelf(t, a, b) {
      var k :| 1 <= k < |pb| && pb[k] == a;
      PathEntry(t, b, k);
    }
    if PathOf(t, a) <= pb {
      var k := |PathOf(t, a)| - 1;
      assert pb[k] == a;
      assert pb[1..][k - 1] == a;
    }
  }

  /** Being a proper ancestor is the same as having a strictly shorter prefix of the path. */
  lemma AncestorIsProperPathPrefix(t: Tree, a: int, b: int)
    requires WellFormed(t) && a in t.nodes && b in t.nodes
    ensures IsAncestor(t, a, b) <==> PathOf(t, a) <= PathOf(t, b) && Level(t, a) < Level(t, b)
  {
    var pb := PathOf(t, b);
    if IsAncestor(t, a, b) {
      var k :| 1 <= k < |pb| - 1 && pb[k] == a;
      PathEntry(t, b, k);
    }
    if PathOf(t, a) <= pb && Level(t, a) < Level(t, b) {
      var k := |PathOf(t, a)| - 1;
      assert pb[k] == a;
      assert pb[1..|pb| - 1][k - 1] == a;
    }
  }

  /** `IsAncestorOrSelf` relaxes `IsAncestor` by exactly the node itself. */
  lemma AncestorOrSelfIsAncestorOrEqual(t: Tree, a: int, b: int)
    requires WellFormed(t) && a in t.nodes && b in t.nodes
    ensures IsAncestorOrSelf(t, a, b) <==> IsAncestor(t, a, b) || a == b
  {
    var p := PathOf(t, b);
    var inner := p[1..|p| - 1];
    assert p[1..] == inner + [b];
    assert IsAncestor(t, a, b) <==> a in inner;
    assert IsAncestorOrSelf(t, a, b) <==> a in inner + [b];
  }

  /** The descendant relations are the converses of the ancestor relations. */
  lemma DescendantIsConverseOfAncestor(t: Tree, a: int, b: int)
    requires WellFormed(t) && a in t.nodes && b in t.nodes
    ensures IsDescendant(t, a, b) <==> IsAncestor(t, b, a)
    ensures IsDescendantOrSelf(t, a, b) <==> IsAncestorOrSelf(t, b, a)
  {
    AncestorIsProperPathPrefix(t, b, a);
    AncestorOrSelfIsPathPrefix(t, b, a);
  }

  /** No node is its own ancestor, and ancestry never runs both ways. */
  lemma AncestorIsIrreflexiveAndAsymmetric(t: Tree, a: int, b: int)
    requires WellFormed(t) && a in t.nodes && b in t.nodes
    ensures !IsAncestor(t, a, a)
    ensures IsAncestor(t, a, b) ==> !IsAncestor(t, b, a)
  {
    AncestorIsProperPathPrefix(t, a, a);
    AncestorIsProperPathPrefix(t, a, b);
    AncestorIsProperPathPrefix(t, b, a);
  }

  lemma AncestorIsTransitive(t: Tree, a: int, b: int, c: int)
    requires WellFormed(t) && a in t.nodes && b in t.nodes && c in t.nodes
    ensures IsAncestor(t, a, b) && IsAncestor(t, b, c) ==> IsAncestor(t, a, c)
  {
    AncestorIsProperPathPrefix(t, a, b);
    AncestorIsProperPathPrefix(t, b, c);
    AncestorIsProperPathPrefix(t, a, c);
  }

  /** The proper ancestors, walking up the parent links. */
  function Ancestors(t: Tree, id: int): (r: seq<int>)
    requires WellFormed(t) && id in t.nodes
    ensures forall a :: a in r ==> a in t.nodes
    decreases Level(t, id)
  {
    match Parent(t, id)
    case None => []
    case Some(p) => [p] + Ancestors(t, p)
  }

  /** `Ancestors` holds each proper ancestor exactly once, and nothing else. */
  lemma {:induction false} AncestorsAreProperAncestors(t: Tree, id: int)
    requires WellFormed(t) && id in t.nodes
    ensures forall a :: a in Ancestors(t, id) <==> a in t.nodes && IsAncestor(t, a, id)
    ensures NoDup(Ancestors(t, id))
    ensures |Ancestors(t, id)| == Level(t, id) - 1
    decreases Level(t, id)
  {
    match Parent(t, id)
    case None =>
    case Some(p) =>
      AncestorsAreProperAncestors(t, p);
      var pp, pi := PathOf(t, p), PathOf(t, id);
      assert pi[1..|pi| - 1] == pp[1..];
      forall a | a in t.nodes
        ensures IsAncestor(t, a, id) <==> a == p || IsAncestor(t, a, p)
      {
        AncestorOrSelfIsAncestorOrEqual(t, a, p);
      }
      AncestorIsIrreflexiveAndAsymmetric(t, p, p);
      NoDupAppend([p], Ancestors(t, p));
  }

  /** The node followed by its proper ancestors. */
  function AncestorsOrSelf(t: Tree, id: int): (r: seq<int>)
    requires WellFormed(t) && id in t.nodes
    ensures forall a :: a in r <==> a in t.nodes && IsAncestorOrSelf(t, a, id)
    ensures NoDup(r)
    ensures |r| == Level(t, id)
  {
    AncestorsAreProperAncestors(t, id);
    AncestorIsIrreflexiveAndAsymmetric(t, id, id);
    NoDupAppend([id], Ancestors(t, id));
    forall a | a in t.nodes ensures IsAncestorOrSelf(t, a, id) <==> a == id || IsAncestor(t, a, id) {
      AncestorOrSelfIsAncestorOrEqual(t, a, id);
    }
    [id] + Ancestors(t, id)
  }

  /** The parameterless `AncestorOrSelf`: the ancestor-or-self at the node's own level, i.e. the node. */
  function AncestorOrSelf(t: Tree, id: int): (r: int)
    requires WellFormed(t) && id in t.nodes
    ensures r in t.nodes && IsAncestorOrSelf(t, r, id) && Level(t, r) == Level(t, id)
  {
    assert PathOf(t, id)[1..][|PathOf(t, id)| - 2] == id;
    id
  }

  function Min(a: int, b: int): int { if a <= b then a else b }

  /**
   * `AncestorOrSelf(maxLevel)`: walking up from the node, the first node whose level
   * is at most `maxLevel`; none when `maxLevel` is below the top level.
   */
  function AncestorOrSelfUpTo(t: Tree, id: int, maxLevel: int): (r: Option<int>)
    requires WellFormed(t) && id in t.nodes
    ensures r.Some? <==> maxLevel >= 1
    ensures r.Some? ==> r.value in t.nodes && IsAncestorOrSelf(t, r.value, id)
    ensures r.Some? ==> Level(t, r.value) == Min(maxLevel, Level(t, id))
    decreases Level(t, id)
  {
    if Level(t, id) <= maxLevel then
      assert PathOf(t, id)[1..][|PathOf(t, id)| - 2] == id;
      Some(id)
    else
      match Parent(t, id)
      case None => None
      case Some(p) =>
        var r := AncestorOrSelfUpTo(t, p, maxLevel);
        if r.Some? then
          AncestorOrSelfIsPathPrefix(t, r.value, p);
          AncestorOrSelfIsPathPrefix(t, r.value, id);
          r
        else r
  }

  /** The ids among `ids` of the nodes whose parent is `id`, in the order of `ids`. */
  function ChildrenAmong(t: Tree, ids: seq<int>, id: int): (r: seq<int>)
    ensures forall x :: x in r <==> x in ids && x in t.nodes && t.nodes[x].parentId == Some(id)
    ensures forall x :: multiset(r)[x] <= multiset(ids)[x]
  {
    if ids == [] then []
    else
      assert ids == [ids[0]] + ids[1..];
      (if ids[0] in t.nodes && t.nodes[ids[0]].parentId == Some(id) then [ids[0]] else [])
        + ChildrenAmong(t, ids[1..], id)
  }

  function SortOrderOf(t: Tree, id: int): int
  {
    if id in t.nodes then NodeOf(t, id).sortOrder else 0
  }

  /** Sort key of a snapshot's nodes: their sort order. */
  function SortOrderKey(t: Tree): int -> int
  {
    x => SortOrderOf(t, x)
  }

  /** The children of a node, ordered by sort order. */
  function Children(t: Tree, id: int): (r: seq<int>)
    requires WellFormed(t) && id in t.nodes
    ensures forall x :: x in r <==> IsChildOf(t, x, id)
    ensures forall x :: x in r ==> x in t.nodes && Level(t, x) == Level(t, id) + 1
    ensures NoDup(r)
    ensures SortedBy(r, SortOrderKey(t))
  {
    var cs := ChildrenAmong(t, t.order, id);
    forall x | x in cs ensures Level(t, x) == Level(t, id) + 1 {
      ChildOfMeansParent(t, x, id);
    }
    forall x ensures multiset(SortBy(cs, SortOrderKey(t)))[x] <= 1 {
      assert multiset(t.order)[x] <= 1;
    }
    forall x ensures x in SortBy(cs, SortOrderKey(t)) <==> x in cs {
      SortByMembers(cs, SortOrderKey(t), x);
    }
    SortBy(cs, SortOrderKey(t))
  }

  /**
   * When the children of `id` have pairwise distinct sort orders, `Children` is fixed:
   * it is the one listing of them with increasing sort order.
   */
  lemma ChildrenAreDetermined(t: Tree, id: int, b: seq<int>)
    requires WellFormed(t) && id in t.nodes
    requires forall x :: x in b ==> x in t.nodes
    requires forall x :: x in t.nodes ==> (x in b <==> t.nodes[x].parentId == Some(id))
    requires KeysIncrease(b, SortOrderKey(t))
    ensures Children(t, id) == b
  {
    var cs := Children(t, id);
    assert forall x :: x in cs <==> x in b;
    IncreasingListingIsUnique(cs, b, SortOrderKey(t));
  }

  /** The first element of `s` satisfying `pred` (LINQ `FirstOrDefault(pred)`). */
  function FirstWhere(s: seq<int>, pred: int -> bool): (r: Option<int>)
    ensures r.None? <==> forall x :: x in s ==> !pred(x)
    ensures r.Some? ==> exists i :: 0 <= i < |s| && s[i] == r.value && pred(s[i])
                          && forall j :: 0 <= j < i ==> !pred(s[j])
  {
    if s == [] then None
    else if pred(s[0]) then
      var first := s[0];
      assert first in s && pred(first);
      Some(s[0])
    else
      var r := FirstWhere(s[1..], pred);
      assert forall x :: x in s ==> x == s[0] || x in s[1..];
      if r.Some? then
        var i :| 0 <= i < |s[1..]| && s[1..][i] == r.value && pred(s[1..][i])
                 && forall j :: 0 <= j < i ==> !pred(s[1..][j]);
        assert forall j :: 0 <= j < i + 1 ==> !pred(s[j]) by {
          forall j | 0 <= j < i + 1 ensures !pred(s[j]) {
            if j > 0 { assert s[j] == s[1..][j - 1]; }
          }
        }
        assert s[i + 1] == r.value;
        r
      else r
  }

  /** In a sorted sequence, the first element satisfying `pred` has the least key among those that do. */
  lemma FirstMatchHasLeastKey(cs: seq<int>, pred: int -> bool, i: nat, key: int -> int)
    requires SortedBy(cs, key)
    requires i < |cs| && forall j :: 0 <= j < i ==> !pred(cs[j])
    ensures forall x :: x in cs && pred(x) ==> key(cs[i]) <= key(x)
  {
    forall x | x in cs && pred(x) ensures key(cs[i]) <= key(x) {
      var k :| 0 <= k < |cs| && cs[k] == x;
      assert !(k < i);
    }
  }

  /** `FirstChild(predicate)`: the first child, in sort order, that satisfies `pred`. */
  function FirstChildWhere(t: Tree, id: int, pred: int -> bool): (r: Option<int>)
    requires WellFormed(t) && id in t.nodes
    ensures r.None? <==> forall x :: IsChildOf(t, x, id) ==> !pred(x)
    ensures r.Some? ==> IsChildOf(t, r.value, id) && pred(r.value)
    ensures r.Some? ==> forall x :: IsChildOf(t, x, id) && pred(x)
                          ==> SortOrderOf(t, r.value) <= SortOrderOf(t, x)
  {
    var cs := Children(t, id);
    var r := FirstWhere(cs, pred);
    if r.Some? then
      var i :| 0 <= i < |cs| && cs[i] == r.value && pred(cs[i]) && forall j :: 0 <= j < i ==> !pred(cs[j]);
      FirstMatchHasLeastKey(cs, pred, i, SortOrderKey(t));
      r
    else r
  }

  /** `FirstChild()`: the child with the lowest sort order, none for a leaf. */
  function FirstChild(t: Tree, id: int): (r: Option<int>)
    requires WellFormed(t) && id in t.nodes
    ensures r.None? <==> forall x :: !IsChildOf(t, x, id)
    ensures r.Some? ==> IsChildOf(t, r.value, id)
    ensures r.Some? ==> forall x :: IsChildOf(t, x, id)
                          ==> SortOrderOf(t, r.value) <= SortOrderOf(t, x)
  {
    FirstChildWhere(t, id, _ => true)
  }

  /** The child at position `k` in sort order is the first match when it matches and none before it does. */
  lemma FirstChildWhereIsFirstMatch(t: Tree, id: int, pred: int -> bool, k: nat)
    requires WellFormed(t) && id in t.nodes
    requires k < |Children(t, id)| && pred(Children(t, id)[k])
    requires forall j :: 0 <= j < k ==> !pred(Children(t, id)[j])
    ensures FirstChildWhere(t, id, pred) == Some(Children(t, id)[k])
  {
    var cs := Children(t, id);
    var r := FirstWhere(cs, pred);
    var i :| 0 <= i < |cs| && cs[i] == r.value && pred(cs[i]) && forall j :: 0 <= j < i ==> !pred(cs[j]);
    assert i == k;
  }

  /** The highest level among the nodes `ids` (0 when none of them is stored). */
  function MaxLevelAmong(t: Tree, ids: seq<int>): (m: nat)
    ensures forall x :: x in ids && x in t.nodes ==> t.nodes[x].level <= m
    ensures m == 0 || exists x :: x in ids && x in t.nodes && t.nodes[x].level == m
  {
    if ids == [] then 0
    else
      var m := MaxLevelAmong(t, ids[1..]);
      assert forall x :: x in ids ==> x == ids[0] || x in ids[1..];
      if ids[0] in t.nodes && t.nodes[ids[0]].level > m then t.nodes[ids[0]].level else m
  }

  /** The highest level in the snapshot; it bounds the depth of every descent. */
  function MaxLevel(t: Tree): (m: nat)
    requires WellFormed(t)
    ensures forall x :: x in t.nodes ==> Level(t, x) <= m
  {
    MaxLevelAmong(t, t.order)
  }

  /** In a snapshot that lists any node at all, some node sits at the highest level. */
  lemma MaxLevelIsAttained(t: Tree)
    requires WellFormed(t) && t.order != []
    ensures exists x :: x in t.nodes && Level(t, x) == MaxLevel(t)
  {
    var y := t.order[0];
    assert Level(t, y) <= MaxLevel(t);
    var x :| x in t.order && x in t.nodes && t.nodes[x].level == MaxLevel(t);
    assert Level(t, x) == MaxLevel(t);
  }

  /** The node followed by its descendants, depth first, children in sort order. */
  function DescendantsOrSelf(t: Tree, id: int): seq<int>
    requires WellFormed(t) && id in t.nodes
    decreases MaxLevel(t) - Level(t, id), 2
  {
    [id] + Descendants(t, id)
  }

  /** The descendants of a node, depth first, children in sort order. */
  function Descendants(t: Tree, id: int): seq<int>
    requires WellFormed(t) && id in t.nodes
    decreases MaxLevel(t) - Level(t, id), 1
  {
    DescendantsOfEach(t, Children(t, id), Level(t, id) + 1)
  }

  /** The subtrees of the nodes `cs`, all at `level`, one after the other. */
  function DescendantsOfEach(t: Tree, cs: seq<int>, level: nat): seq<int>
    requires WellFormed(t)
    requires forall c :: c in cs ==> c in t.nodes && Level(t, c) == level
    decreases MaxLevel(t) + 1 - level, 0, |cs|
  {
    if cs == [] then []
    else DescendantsOrSelf(t, cs[0]) + DescendantsOfEach(t, cs[1..], level)
  }

  /** The child of `id` that lies on the path of a node below `id`. */
  lemma ChildTowards(t: Tree, id: int, x: int) returns (c: int)
    requires WellFormed(t) && id in t.nodes && x in t.nodes && IsAncestor(t, id, x)
    ensures IsChildOf(t, c, id) && IsAncestorOrSelf(t, c, x)
  {
    AncestorIsProperPathPrefix(t, id, x);
    var px, k := PathOf(t, x), |PathOf(t, id)|;
    PathEntry(t, x, k);
    c := px[k];
    assert PathOf(t, c) == PathOf(t, id) + [c];
    var pc := Parent(t, c).value;
    assert PathOf(t, pc) == PathOf(t, id);
    PathDeterminesNode(t, pc, id);
    assert px[1..][k - 1] == c;
  }

  lemma ChildAncestorGivesAncestor(t: Tree, id: int, c: int, x: int)
    requires WellFormed(t) && id in t.nodes && c in t.nodes && x in t.nodes
    requires IsChildOf(t, c, id) && IsAncestorOrSelf(t, c, x)
    ensures IsAncestor(t, id, x)
  {
    ChildOfMeansParent(t, c, id);
    AncestorOrSelfIsPathPrefix(t, c, x);
    AncestorIsProperPathPrefix(t, id, x);
  }

  /** Two nodes of equal level that both lie on a node's path are the same node. */
  lemma SameLevelAncestorsAgree(t: Tree, a: int, b: int, x: int)
    requires WellFormed(t) && a in t.nodes && b in t.nodes && x in t.nodes
    requires Level(t, a) == Level(t, b)
    ensures IsAncestorOrSelf(t, a, x) && IsAncestorOrSelf(t, b, x) ==> a == b
  {
    AncestorOrSelfIsPathPrefix(t, a, x);
    AncestorOrSelfIsPathPrefix(t, b, x);
    if PathOf(t, a) <= PathOf(t, x) && PathOf(t, b) <= PathOf(t, x) {
      assert PathOf(t, a) == PathOf(t, x)[..|PathOf(t, a)|] == PathOf(t, b);
    }
  }

  /** The subtree of `id` holds each node on whose path `id` lies exactly once. */
  lemma {:induction false} DescendantsOrSelfAreExact(t: Tree, id: int)
    requires WellFormed(t) && id in t.nodes
    ensures forall x :: x in DescendantsOrSelf(t, id) <==> x in t.nodes && IsAncestorOrSelf(t, id, x)
    ensures NoDup(DescendantsOrSelf(t, id))
    decreases MaxLevel(t) - Level(t, id), 2
  {
    DescendantsAreExact(t, id);
    AncestorIsIrreflexiveAndAsymmetric(t, id, id);
    NoDupAppend([id], Descendants(t, id));
    forall x | x in t.nodes ensures IsAncestorOrSelf(t, id, x) <==> x == id || IsAncestor(t, id, x) {
      AncestorOrSelfIsAncestorOrEqual(t, id, x);
    }
  }

  /** The descendants of `id` are exactly the nodes it is a proper ancestor of, each once. */
  lemma {:induction false} DescendantsAreExact(t: Tree, id: int)
    requires WellFormed(t) && id in t.nodes
    ensures forall x :: x in Descendants(t, id) <==> x in t.nodes && IsAncestor(t, id, x)
    ensures NoDup(Descendants(t, id))
    decreases MaxLevel(t) - Level(t, id), 1
  {
    var cs, level := Children(t, id), Level(t, id) + 1;
    DescendantsOfEachAreExact(t, cs, level);
    ChildSubtreesAreBelow(t, id, DescendantsOfEach(t, cs, level));
    DescendantsUnfold(t, id, cs, level);
  }

  /** What the subtrees of the children hold is what lies strictly below `id`. */
  lemma ChildSubtreesAreBelow(t: Tree, id: int, d: seq<int>)
    requires WellFormed(t) && id in t.nodes
    requires forall x :: x in d <==> x in t.nodes && UnderSome(t, Children(t, id), x)
    ensures forall x :: x in d <==> x in t.nodes && IsAncestor(t, id, x)
  {
    BelowChildrenIsBelow(t, id);
  }

  /** `Descendants` is the concatenated subtrees of the children. */
  lemma DescendantsUnfold(t: Tree, id: int, cs: seq<int>, level: nat)
    requires WellFormed(t) && id in t.nodes
    requires cs == Children(t, id) && level == Level(t, id) + 1
    requires forall c :: c in cs ==> c in t.nodes && Level(t, c) == level
    ensures Descendants(t, id) == DescendantsOfEach(t, cs, level)
  {
  }

  /** `x` lies in the subtree of one of the nodes `cs`. */
  ghost predicate UnderSome(t: Tree, cs: seq<int>, x: int)
    requires WellFormed(t) && x in t.nodes && forall c :: c in cs ==> c in t.nodes
  {
    exists c :: c in cs && IsAncestorOrSelf(t, c, x)
  }

  /** The nodes in the subtrees of the children of `id` are the nodes strictly below `id`. */
  lemma BelowChildrenIsBelow(t: Tree, id: int)
    requires WellFormed(t) && id in t.nodes
    ensures forall x :: x in t.nodes ==>
      (UnderSome(t, Children(t, id), x) <==> IsAncestor(t, id, x))
  {
    forall x | x in t.nodes
      ensures UnderSome(t, Children(t, id), x) <==> IsAncestor(t, id, x)
    {
      BelowSomeChild(t, id, x);
    }
  }

  /** Lying in the subtree of some child of `id` is the same as lying strictly below `id`. */
  lemma BelowSomeChild(t: Tree, id: int, x: int)
    requires WellFormed(t) && id in t.nodes && x in t.nodes
    requires forall c :: c in Children(t, id) ==> c in t.nodes
    ensures UnderSome(t, Children(t, id), x) <==> IsAncestor(t, id, x)
  {
    if c :| c in Children(t, id) && IsAncestorOrSelf(t, c, x) {
      ChildAncestorGivesAncestor(t, id, c, x);
    }
    if IsAncestor(t, id, x) {
      var c := ChildTowards(t, id, x);
      assert c in Children(t, id);
    }
  }

  lemma {:induction false} DescendantsOfEachAreExact(t: Tree, cs: seq<int>, level: nat)
    requires WellFormed(t)
    requires forall c :: c in cs ==> c in t.nodes && Level(t, c) == level
    requires NoDup(cs)
    ensures forall x :: x in DescendantsOfEach(t, cs, level) <==>
      x in t.nodes && UnderSome(t, cs, x)
    ensures NoDup(DescendantsOfEach(t, cs, level))
    decreases MaxLevel(t) + 1 - level, 0, |cs|
  {
    if cs != [] {
      var c0, rest := cs[0], cs[1..];
      assert cs == [c0] + rest;
      NoDupAppend([c0], rest);
      DescendantsOrSelfAreExact(t, c0);
      DescendantsOfEachAreExact(t, rest, level);
      var left, right := DescendantsOrSelf(t, c0), DescendantsOfEach(t, rest, level);
      forall x | x in left ensures x !in right {
        forall c | c in rest ensures !IsAncestorOrSelf(t, c, x) {
          SameLevelAncestorsAgree(t, c0, c, x);
        }
      }
      NoDupAppend(left, right);
    }
  }

  /** `SiblingsAndSelf`: the parent's children, or the snapshot's root list for a top-level node. */
  function SiblingsAndSelf(t: Tree, roots: seq<int>, id: int): (r: seq<int>)
    requires WellFormed(t) && id in t.nodes
    ensures Parent(t, id).None? ==> r == roots
    ensures Parent(t, id).Some? ==> NoDup(r) && id in r
    ensures Parent(t, id).Some? ==> forall x :: x in r <==> IsChildOf(t, x, Parent(t, id).value)
  {
    match Parent(t, id)
    case None => roots
    case Some(p) => Children(t, p)
  }

  /** `Siblings`: `SiblingsAndSelf` without the node itself. */
  function Siblings(t: Tree, roots: seq<int>, id: int): (r: seq<int>)
    requires WellFormed(t) && id in t.nodes
    ensures id !in r
    ensures forall x :: x != id ==> multiset(r)[x] == multiset(SiblingsAndSelf(t, roots, id))[x]
  {
    var r := Without(SiblingsAndSelf(t, roots, id), id);
    assert multiset(r)[id] == 0;
    r
  }

  /** Below the top level, the siblings are the parent's other children, each once. */
  lemma SiblingsAreOtherChildren(t: Tree, roots: seq<int>, id: int)
    requires WellFormed(t) && id in t.nodes && Parent(t, id).Some?
    ensures SiblingsAndSelf(t, roots, id) == Children(t, Parent(t, id).value)
    ensures multiset(Siblings(t, roots, id)) == multiset(Children(t, Parent(t, id).value)) - multiset{id}
  {
    var r := Siblings(t, roots, id);
    var kids := Children(t, Parent(t, id).value);
    assert id in kids;
    assert forall x :: multiset(r)[x] == (multiset(kids) - multiset{id})[x];
  }

  /** A node is hidden from navigation when its `umbracoNaviHide` property is set. */
  predicate IsVisible(t: Tree, id: int)
    requires id in t.nodes
  {
    !NodeOf(t, id).naviHide
  }

  /** `Where(x => x.IsVisible())`: the visible ones among `ids`, each as often as it occurs there. */
  function VisibleOnly(t: Tree, ids: seq<int>): (r: seq<int>)
    requires forall x :: x in ids ==> x in t.nodes
    ensures forall x :: multiset(r)[x] == if x in t.nodes && IsVisible(t, x) then multiset(ids)[x] else 0
  {
    if ids == [] then []
    else
      assert ids == [ids[0]] + ids[1..];
      (if IsVisible(t, ids[0]) then [ids[0]] else []) + VisibleOnly(t, ids[1..])
  }

  function ContentTypeOf(t: Tree, id: int): string
  {
    if id in t.nodes then NodeOf(t, id).contentType else ""
  }

  /** The positions in `ids` holding a node of content type `alias`. */
  function PositionsOfType(t: Tree, ids: seq<int>, alias: string): set<int>
  {
    set i | 0 <= i < |ids| && ContentTypeOf(t, ids[i]) == alias
  }

  /**
   * How many of `ids` have content type `alias` (`Where(x => x.ContentType.Alias == alias).Count()`):
   * one for every position holding such a node.
   */
  function CountOfType(t: Tree, ids: seq<int>, alias: string): (n: nat)
    ensures n == |PositionsOfType(t, ids, alias)|
    ensures n <= |ids|
    ensures n > 0 <==> exists x :: x in ids && ContentTypeOf(t, x) == alias
  {
    if ids == [] then
      assert PositionsOfType(t, ids, alias) == {};
      0
    else
      var init, last := ids[..|ids| - 1], ids[|ids| - 1];
      PositionsOfTypeSnoc(t, init, last, alias);
      assert ids == init + [last];
      CountOfType(t, init, alias) + (if ContentTypeOf(t, last) == alias then 1 else 0)
  }

  /** Appending a node adds its position exactly when it has the content type. */
  lemma PositionsOfTypeSnoc(t: Tree, init: seq<int>, last: int, alias: string)
    ensures |PositionsOfType(t, init + [last], alias)|
         == |PositionsOfType(t, init, alias)| + (if ContentTypeOf(t, last) == alias then 1 else 0)
  {
    var ids := init + [last];
    var here: set<int> := if ContentTypeOf(t, last) == alias then {|init|} else {};
    forall i | 0 <= i < |init| ensures ids[i] == init[i] { }
    assert PositionsOfType(t, ids, alias) == PositionsOfType(t, init, alias) + here;
    assert |init| !in PositionsOfType(t, init, alias);
  }

  /** The keys of `GroupBy(x => x.ContentType.Alias)`. */
  function ContentTypesOf(t: Tree, ids: seq<int>): (aliases: set<string>)
    ensures forall a :: a in aliases <==> CountOfType(t, ids, a) > 0
  {
    set x | x in ids :: ContentTypeOf(t, x)
  }

  function UpdateDateOf(t: Tree, id: int): int
  {
    if id in t.nodes then NodeOf(t, id).updateDate else 0
  }

  function UpdateDateKey(t: Tree): int -> int
  {
    x => UpdateDateOf(t, x)
  }

  /**
   * `OrderBy(x => x.UpdateDate)`: a stable sort of `ids` by update date; nodes updated
   * at the same moment keep their order in `ids`.
   */
  function OrderByUpdateDate(t: Tree, ids: seq<int>): (r: seq<int>)
    ensures multiset(r) == multiset(ids)
    ensures SortedBy(r, UpdateDateKey(t))
    ensures forall d :: WithKey(r, UpdateDateKey(t), d) == WithKey(ids, UpdateDateKey(t), d)
  {
    var r := SortBy(ids, UpdateDateKey(t));
    assert forall d :: WithKey(r, UpdateDateKey(t), d) == WithKey(ids, UpdateDateKey(t), d) by {
      forall d ensures WithKey(r, UpdateDateKey(t), d) == WithKey(ids, UpdateDateKey(t), d) {
        SortByIsStable(ids, UpdateDateKey(t), d);
      }
    }
    r
  }
}
