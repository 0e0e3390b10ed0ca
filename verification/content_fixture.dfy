/**
 * The content snapshot the navigation tests run against: two top-level nodes, 1046
 * (hidden from navigation) and 1172, with 1046 holding three children and 1173 five.
 * Dates are written as yyyymmddhhmmss numbers, so they compare as the dates do.
 */
module PublishedContentFixture {
  import opened Wrappers
  import opened Sequences
  import opened ContentTree

  const Home := "Home"
  const Custom := "CustomDocument"

  const Fixture: Tree := Tree(
    [1046, 1173, 1174, 117, 1177, 1178, 1179, 1176, 1175, 4444, 1172],
    map[
      1046 := Node(1046, None, [-1, 1046], 1, 1, Home, 20120720185043, true),
      1173 := Node(1173, Some(1046), [-1, 1046, 1173], 2, 1, Home, 20120720190731, false),
      1174 := Node(1174, Some(1173), [-1, 1046, 1173, 1174], 3, 1, Home, 20120720191027, false),
      117 := Node(117, Some(1173), [-1, 1046, 1173, 117], 3, 2, Custom, 20180718100637, false),
      1177 := Node(1177, Some(1173), [-1, 1046, 1173, 1177], 3, 3, Custom, 20120718142335, false),
      1178 := Node(1178, Some(1173), [-1, 1046, 1173, 1178], 3, 4, Custom, 20120716142335, false),
      1179 := Node(1179, Some(1178), [-1, 1046, 1173, 1178, 1179], 4, 1, Custom, 20120718142335, false),
      1176 := Node(1176, Some(1173), [-1, 1046, 1173, 1176], 3, 5, Home, 20120720191052, true),
      1175 := Node(1175, Some(1046), [-1, 1046, 1175], 2, 2, Home, 20120720184932, false),
      4444 := Node(4444, Some(1046), [-1, 1046, 4444], 2, 3, Custom, 20120718142335, false),
      1172 := Node(1172, None, [-1, 1172], 1, 2, Custom, 20120718142335, false)
    ])

  /** The snapshot's `GetAtRoot` as the sibling tests set it up. */
  const Roots: seq<int> := [1046]

  lemma FixtureIsWellFormed()
    ensures WellFormed(Fixture)
  {
    DistinctNoDup(Fixture.order);
    forall id | id in Fixture.nodes ensures NodeOk(Fixture, id) {
      StoredNodeIsOk(id);
    }
  }

  lemma StoredNodeIsOk(id: int)
    requires id in Fixture.nodes
    ensures NodeOk(Fixture, id)
  {
    assert id in {1046, 1173, 1174, 117, 1177, 1178, 1179, 1176, 1175, 4444, 1172};
  }

  /** `b` holds exactly the nodes filed under `parent`, in increasing sort order. */
  ghost predicate ListsChildren(parent: int, b: seq<int>)
  {
    && (forall x :: x in b ==> x in Fixture.nodes)
    && (forall x :: x in Fixture.nodes ==> (x in b <==> Fixture.nodes[x].parentId == Some(parent)))
    && KeysIncrease(b, SortOrderKey(Fixture))
  }

  lemma ChildLinksOfHome()
    ensures ListsChildren(1046, [1173, 1175, 4444])
  {
    var t := Fixture;
    assert [1175, 4444][1..] == [4444];
    assert [1173, 1175, 4444][1..] == [1175, 4444];
    assert KeysIncrease([1175, 4444], SortOrderKey(t));
  }

  lemma FiledUnderSub1()
    ensures forall x :: x in Fixture.nodes ==> (x in [1174, 117, 1177, 1178, 1176] <==> Fixture.nodes[x].parentId == Some(1173))
  {
    var t := Fixture;
    forall x | x in t.nodes ensures x in [1174, 117, 1177, 1178, 1176] <==> t.nodes[x].parentId == Some(1173) {
      assert x in {1046, 1173, 1174, 117, 1177, 1178, 1179, 1176, 1175, 4444, 1172};
    }
  }

  lemma Sub1SortOrders()
    ensures SortOrderOf(Fixture, 1174) == 1 && SortOrderOf(Fixture, 117) == 2 && SortOrderOf(Fixture, 1177) == 3
    ensures SortOrderOf(Fixture, 1178) == 4 && SortOrderOf(Fixture, 1176) == 5
  {
  }

  lemma Sub1SortOrderIncreases()
    ensures KeysIncrease([1174, 117, 1177, 1178, 1176], SortOrderKey(Fixture))
  {
    var key := SortOrderKey(Fixture);
    Sub1SortOrders();
    assert [1178, 1176][1..] == [1176];
    assert [1177, 1178, 1176][1..] == [1178, 1176];
    assert [117, 1177, 1178, 1176][1..] == [1177, 1178, 1176];
    assert [1174, 117, 1177, 1178, 1176][1..] == [117, 1177, 1178, 1176];
    assert KeysIncrease([1178, 1176], key);
    assert KeysIncrease([1177, 1178, 1176], key);
    assert KeysIncrease([117, 1177, 1178, 1176], key);
  }

  lemma ChildLinksOfSub1()
    ensures ListsChildren(1173, [1174, 117, 1177, 1178, 1176])
  {
    FiledUnderSub1();
    Sub1SortOrderIncreases();
  }

  /** No node is filed under the leaf `parent`. */
  lemma NoChildren(parent: int)
    requires parent in {1174, 117, 1177, 1179, 1176, 1175, 4444, 1172}
    ensures forall x :: x in Fixture.nodes ==> Fixture.nodes[x].parentId != Some(parent)
  {
  }

  /** `Children` of 1046, in sort order. */
  lemma ChildrenOfHome()
    ensures WellFormed(Fixture)
    ensures Children(Fixture, 1046) == [1173, 1175, 4444]
  {
    var t := Fixture;
    ChildLinksOfHome();
    FixtureIsWellFormed();
    ChildrenAreDetermined(t, 1046, [1173, 1175, 4444]);
  }

  /** `Children` of 1173, in sort order. */
  lemma ChildrenOfSub1()
    ensures WellFormed(Fixture)
    ensures Children(Fixture, 1173) == [1174, 117, 1177, 1178, 1176]
  {
    var t := Fixture;
    ChildLinksOfSub1();
    FixtureIsWellFormed();
    ChildrenAreDetermined(t, 1173, [1174, 117, 1177, 1178, 1176]);
  }

  /** The first child of 1046 is 1173, the child with the lowest sort order. */
  lemma FirstChildOfHome()
    ensures WellFormed(Fixture)
    ensures FirstChild(Fixture, 1046) == Some(1173)
  {
    var t := Fixture;
    ChildrenOfHome();
    FirstChildWhereIsFirstMatch(t, 1046, _ => true, 0);
  }

  /** `FirstChild<Home>()`'s test: the node is typed Home. */
  predicate IsHomeTyped(x: int)
  {
    ContentTypeOf(Fixture, x) == Home
  }

  /** The first Home-typed child of 1046 is 1173 as well. */
  lemma FirstHomeChildOfHome()
    ensures WellFormed(Fixture)
    ensures FirstChildWhere(Fixture, 1046, IsHomeTyped) == Some(1173)
  {
    HomeChildIsHomeTyped();
    ChildrenOfHome();
    FirstChildWhereIsFirstMatch(Fixture, 1046, IsHomeTyped, 0);
  }

  lemma HomeChildIsHomeTyped()
    ensures IsHomeTyped(1173)
  {
  }

  /** 1173 has a first child; 1175 has none. */
  lemma FirstChildOfLeaf()
    ensures WellFormed(Fixture)
    ensures FirstChild(Fixture, 1173).Some?
    ensures FirstChild(Fixture, 1175) == None
  {
    var t := Fixture;
    NoChildren(1175);
    ChildrenOfSub1();
    assert 1174 in Children(t, 1173);
    ChildrenAreDetermined(t, 1175, []);
  }

  /** The links upwards from 1174 to the top. */
  lemma UpwardLinks()
    ensures WellFormed(Fixture)
    ensures Parent(Fixture, 1174) == Some(1173)
    ensures Parent(Fixture, 1173) == Some(1046)
    ensures Parent(Fixture, 1046) == None
  {
    var t := Fixture;
    assert t.nodes[1174].parentId == Some(1173);
    assert t.nodes[1173].parentId == Some(1046);
    assert t.nodes[1046].parentId == None;
    FixtureIsWellFormed();
  }

  /** `Ancestors` of 1174 are 1173 and 1046; `AncestorsOrSelf` adds 1174 itself. */
  lemma AncestorsOfSub2()
    ensures WellFormed(Fixture)
    ensures Ancestors(Fixture, 1174) == [1173, 1046]
    ensures AncestorsOrSelf(Fixture, 1174) == [1174, 1173, 1046]
  {
    var t := Fixture;
    UpwardLinks();
    assert Ancestors(t, 1046) == [];
    assert Ancestors(t, 1173) == [1046];
  }

  /** 1046 is hidden and 1173 is not, so of 1174's ancestors only one is visible. */
  lemma VisibleAncestorsOfSub2()
    ensures !IsVisible(Fixture, 1046) && IsVisible(Fixture, 1173)
    ensures WellFormed(Fixture) && |VisibleOnly(Fixture, Ancestors(Fixture, 1174))| == 1
  {
    var t := Fixture;
    assert !IsVisible(t, 1046) && IsVisible(t, 1173);
    assert [1173, 1046][1..] == [1046] && [1046][1..] == [];
    assert VisibleOnly(t, [1046]) == [];
    assert VisibleOnly(t, [1173, 1046]) == [1173];
    AncestorsOfSub2();
  }

  /** `AncestorOrSelf()` of 1173 is 1173; `AncestorOrSelf(1)` of 1174 is the top node 1046. */
  lemma AncestorAtLevelOne()
    ensures WellFormed(Fixture)
    ensures AncestorOrSelf(Fixture, 1173) == 1173
    ensures AncestorOrSelfUpTo(Fixture, 1174, 1) == Some(1046)
  {
    var t := Fixture;
    var levels := (t.nodes[1174].level, t.nodes[1173].level, t.nodes[1046].level);
    assert levels == (3, 2, 1);
    FixtureIsWellFormed();
    var r := AncestorOrSelfUpTo(t, 1174, 1);
    assert r.value in PathOf(t, 1174)[1..];
    assert PathOf(t, 1174)[1..] == [1046, 1173, 1174];
  }

  /** Content-type counts over the list 1173, 1175, 4444. */
  lemma TypesOfHomeList()
    ensures CountOfType(Fixture, [1173, 1175, 4444], Home) == 2
    ensures CountOfType(Fixture, [1173, 1175, 4444], Custom) == 1
    ensures ContentTypesOf(Fixture, [1173, 1175, 4444]) == {Home, Custom}
  {
    var t := Fixture;
    assert ContentTypeOf(t, 1173) == Home && ContentTypeOf(t, 1175) == Home && ContentTypeOf(t, 4444) == Custom;
    assert [1173, 1175, 4444][1..] == [1175, 4444] && [1175, 4444][1..] == [4444] && [4444][1..] == [];
    forall a ensures CountOfType(t, [1173, 1175, 4444], a) == (if a == Home then 2 else 0) + (if a == Custom then 1 else 0) {
      assert CountOfType(t, [4444], a) == if a == Custom then 1 else 0;
    }
    var types := ContentTypesOf(t, [1173, 1175, 4444]);
    assert forall a :: a in types <==> a == Home || a == Custom;
  }

  /** Grouped by content type, the children of 1046 give two Home pages and one CustomDocument. */
  lemma ChildTypesOfHome()
    ensures WellFormed(Fixture)
    ensures CountOfType(Fixture, Children(Fixture, 1046), Home) == 2
    ensures CountOfType(Fixture, Children(Fixture, 1046), Custom) == 1
    ensures ContentTypesOf(Fixture, Children(Fixture, 1046)) == {Home, Custom}
  {
    TypesOfHomeList();
    ChildrenOfHome();
  }

  /** The update dates along 1178, 1177, 1174, 1176, 117 strictly increase. */
  lemma UpdateDatesIncrease()
    ensures KeysIncrease([1178, 1177, 1174, 1176, 117], UpdateDateKey(Fixture))
  {
    var key := UpdateDateKey(Fixture);
    assert [1176, 117][1..] == [117];
    assert [1174, 1176, 117][1..] == [1176, 117];
    assert [1177, 1174, 1176, 117][1..] == [1174, 1176, 117];
    assert [1178, 1177, 1174, 1176, 117][1..] == [1177, 1174, 1176, 117];
    assert KeysIncrease([1176, 117], key);
    assert KeysIncrease([1174, 1176, 117], key);
    assert KeysIncrease([1177, 1174, 1176, 117], key);
  }

  /** Sorting 1174, 117, 1177, 1178, 1176 by update date gives 1178, 1177, 1174, 1176, 117. */
  lemma Sub1ListByUpdateDate()
    ensures OrderByUpdateDate(Fixture, [1174, 117, 1177, 1178, 1176]) == [1178, 1177, 1174, 1176, 117]
  {
    var a, b := [1174, 117, 1177, 1178, 1176], [1178, 1177, 1174, 1176, 117];
    Sub1Entries();
    UpdateDatesIncrease();
    var r := OrderByUpdateDate(Fixture, a);
    OnlySortedArrangement(r, b, UpdateDateKey(Fixture));
  }

  lemma Sub1Entries()
    ensures multiset([1174, 117, 1177, 1178, 1176]) == multiset([1178, 1177, 1174, 1176, 117])
  {
  }

  /** `OrderBy(UpdateDate)` lists the children of 1173 as 1178, 1177, 1174, 1176, 117. */
  lemma ChildrenOfSub1ByUpdateDate()
    ensures WellFormed(Fixture)
    ensures OrderByUpdateDate(Fixture, Children(Fixture, 1173)) == [1178, 1177, 1174, 1176, 117]
  {
    Sub1ListByUpdateDate();
    ChildrenOfSub1();
  }

  /** The nodes the relation tests compare: 1046, 1173, 1178, 1179, 1172 and 117. */
  const Sample: set<int> := {1046, 1173, 1178, 1179, 1172, 117}

  /** Which of `Sample` is a proper ancestor of which. */
  const AncestorPairs: set<(int, int)> :=
    {(1046, 1173), (1046, 1178), (1046, 1179), (1046, 117), (1173, 1178), (1173, 1179), (1173, 117), (1178, 1179)}

  /** The proper ancestors of `b` are the entries of its stored path between the marker and `b`. */
  lemma AncestorsFromPath(b: int, inner: seq<int>)
    requires b in Fixture.nodes
    requires var p := Fixture.nodes[b].path; |p| >= 2 && p[1..|p| - 1] == inner
    ensures WellFormed(Fixture) && Sample <= Fixture.nodes.Keys
    ensures forall a :: a in Sample ==> (IsAncestor(Fixture, a, b) <==> a in inner)
  {
    SampleIsStored();
    FixtureIsWellFormed();
    AncestorsAreInnerPath(Fixture, b, inner, Sample);
  }

  lemma SampleIsStored()
    ensures Sample <= Fixture.nodes.Keys
  {
  }

  /** The path of each node, between the marker and the node itself. */
  function InnerPath(b: int): seq<int>
  {
    if b in {1173, 1175, 4444} then [1046]
    else if b in {1174, 117, 1177, 1178, 1176} then [1046, 1173]
    else if b == 1179 then [1046, 1173, 1178]
    else []
  }

  /** Each stored path is the root marker, the inner path and the node itself. */
  lemma PathIsInnerPath(x: int)
    requires x in Fixture.nodes
    ensures Fixture.nodes[x].path == [-1] + InnerPath(x) + [x]
  {
    assert x in {1046, 1173, 1174, 117, 1177, 1178, 1179, 1176, 1175, 4444, 1172};
  }

  lemma InnerPathIsStored(x: int)
    requires x in Fixture.nodes
    ensures var p := Fixture.nodes[x].path; |p| >= 2 && p[1..|p| - 1] == InnerPath(x)
  {
    PathIsInnerPath(x);
    var p := Fixture.nodes[x].path;
    assert p[1..|p| - 1] == InnerPath(x);
  }

  /** Within `Sample`, `AncestorPairs` lists for `b` exactly the entries of `InnerPath(b)`. */
  lemma PairsFollowPaths(b: int)
    requires b in Sample
    ensures forall a :: a in Sample ==> (a in InnerPath(b) <==> (a, b) in AncestorPairs)
  {
  }

  /** The proper ancestors of one node of `Sample` among `Sample`. */
  lemma AncestorColumn(b: int)
    requires b in Sample
    ensures WellFormed(Fixture)
    ensures forall a :: a in Sample ==> (IsAncestor(Fixture, a, b) <==> (a, b) in AncestorPairs)
  {
    PairsFollowPaths(b);
    InnerPathIsStored(b);
    AncestorsFromPath(b, InnerPath(b));
  }

  /** `IsAncestor` among `Sample` holds for exactly the pairs in `AncestorPairs`. */
  lemma AncestorTable()
    ensures WellFormed(Fixture)
    ensures forall a, b :: a in Sample && b in Sample ==> (IsAncestor(Fixture, a, b) <==> (a, b) in AncestorPairs)
  {
    FixtureIsWellFormed();
    forall a, b | a in Sample && b in Sample ensures IsAncestor(Fixture, a, b) <==> (a, b) in AncestorPairs {
      AncestorColumn(b);
    }
  }

  /** `IsAncestorOrSelf` among `Sample`: the ancestor pairs and the diagonal. */
  lemma AncestorOrSelfTable()
    ensures WellFormed(Fixture)
    ensures forall a, b :: a in Sample && b in Sample ==>
              (IsAncestorOrSelf(Fixture, a, b) <==> (a, b) in AncestorPairs || a == b)
  {
    AncestorTable();
    forall a, b | a in Sample && b in Sample
      ensures IsAncestorOrSelf(Fixture, a, b) <==> (a, b) in AncestorPairs || a == b
    {
      AncestorOrSelfIsAncestorOrEqual(Fixture, a, b);
    }
  }

  /** `IsDescendant` among `Sample`: the ancestor pairs turned round. */
  lemma DescendantTable()
    ensures WellFormed(Fixture)
    ensures forall a, b :: a in Sample && b in Sample ==> (IsDescendant(Fixture, a, b) <==> (b, a) in AncestorPairs)
  {
    AncestorTable();
    forall a, b | a in Sample && b in Sample ensures IsDescendant(Fixture, a, b) <==> (b, a) in AncestorPairs {
      DescendantIsConverseOfAncestor(Fixture, a, b);
    }
  }

  /** `IsDescendantOrSelf` among `Sample`: the ancestor pairs turned round, and the diagonal. */
  lemma DescendantOrSelfTable()
    ensures WellFormed(Fixture)
    ensures forall a, b :: a in Sample && b in Sample ==>
              (IsDescendantOrSelf(Fixture, a, b) <==> (b, a) in AncestorPairs || a == b)
  {
    AncestorOrSelfTable();
    forall a, b | a in Sample && b in Sample
      ensures IsDescendantOrSelf(Fixture, a, b) <==> (b, a) in AncestorPairs || a == b
    {
      DescendantIsConverseOfAncestor(Fixture, a, b);
    }
  }

  /** Everything except the two top-level nodes lies below 1046. */
  const BelowHome: set<int> := {1173, 1174, 117, 1177, 1178, 1179, 1176, 1175, 4444}

  lemma HomeAbove(x: int)
    requires x in Fixture.nodes
    ensures WellFormed(Fixture) && (IsAncestor(Fixture, 1046, x) <==> x in BelowHome)
  {
    assert 1046 in InnerPath(x) <==> x in BelowHome;
    InnerPathIsStored(x);
    AncestorsFromPath(x, InnerPath(x));
  }

  lemma HomeSubtree()
    ensures WellFormed(Fixture)
    ensures forall x :: x in Fixture.nodes ==> (IsAncestor(Fixture, 1046, x) <==> x in BelowHome)
  {
    FixtureIsWellFormed();
    forall x | x in Fixture.nodes ensures IsAncestor(Fixture, 1046, x) <==> x in BelowHome {
      HomeAbove(x);
    }
  }

  /** `Descendants` of 1046 are its nine nodes below. */
  lemma DescendantsOfHome()
    ensures WellFormed(Fixture)
    ensures multiset(Descendants(Fixture, 1046)) == multiset(BelowHome)
    ensures |Descendants(Fixture, 1046)| == 9
  {
    var t := Fixture;
    assert |BelowHome| == 9 && BelowHome <= t.nodes.Keys;
    HomeSubtree();
    DescendantsAreExact(t, 1046);
    var d := Descendants(t, 1046);
    assert forall x :: x in d <==> x in BelowHome;
    NoDupListing(d, BelowHome);
  }

  /** `DescendantsOrSelf` of 1046 adds 1046 itself: ten nodes. */
  lemma DescendantsOrSelfOfHome()
    ensures WellFormed(Fixture)
    ensures multiset(DescendantsOrSelf(Fixture, 1046)) == multiset(BelowHome + {1046})
    ensures |DescendantsOrSelf(Fixture, 1046)| == 10
  {
    var t := Fixture;
    var e := BelowHome + {1046};
    assert |e| == 10 && e <= t.nodes.Keys;
    HomeSubtree();
    DescendantsOrSelfAreExact(t, 1046);
    forall x | x in t.nodes ensures IsAncestorOrSelf(t, 1046, x) <==> x in e {
      AncestorOrSelfIsAncestorOrEqual(t, 1046, x);
    }
    var d := DescendantsOrSelf(t, 1046);
    assert forall x :: x in d <==> x in e;
    NoDupListing(d, e);
  }

  /** With 1046 as the only root handed in, 1046 has itself as only sibling-or-self and no siblings. */
  lemma SiblingsOfTop()
    ensures WellFormed(Fixture)
    ensures SiblingsAndSelf(Fixture, Roots, 1046) == [1046]
    ensures Siblings(Fixture, Roots, 1046) == []
  {
    UpwardLinks();
    assert Without([1046], 1046) == [];
  }

  lemma ParentIs(c: int, parent: int)
    requires c in Fixture.nodes && Fixture.nodes[c].parentId == Some(parent)
    ensures WellFormed(Fixture) && Parent(Fixture, c) == Some(parent)
  {
    FixtureIsWellFormed();
  }

  /** Siblings among the children of 1046, which are 1173, 1175 and 4444. */
  lemma SiblingsUnderHome(c: int)
    requires c in Fixture.nodes && Fixture.nodes[c].parentId == Some(1046)
    ensures WellFormed(Fixture)
    ensures SiblingsAndSelf(Fixture, Roots, c) == [1173, 1175, 4444]
    ensures multiset(Siblings(Fixture, Roots, c)) == multiset([1173, 1175, 4444]) - multiset{c}
  {
    var t := Fixture;
    ParentIs(c, 1046);
    ChildrenOfHome();
    SiblingsAreOtherChildren(t, Roots, c);
  }

  /** Siblings among the children of 1173, which are 1174, 117, 1177, 1178 and 1176. */
  lemma SiblingsUnderSub1(c: int)
    requires c in Fixture.nodes && Fixture.nodes[c].parentId == Some(1173)
    ensures WellFormed(Fixture)
    ensures SiblingsAndSelf(Fixture, Roots, c) == [1174, 117, 1177, 1178, 1176]
    ensures multiset(Siblings(Fixture, Roots, c)) == multiset([1174, 117, 1177, 1178, 1176]) - multiset{c}
  {
    var t := Fixture;
    ParentIs(c, 1173);
    ChildrenOfSub1();
    SiblingsAreOtherChildren(t, Roots, c);
  }
}
