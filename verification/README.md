# Umbraco: cache keys, content navigation, public access, key/value store, external logins

A Dafny model of five small pieces of the Umbraco CMS, with the properties the
code and its tests promise stated as contracts and proved.

- **NuCache cache keys** (`CacheKeys`). These are the eight key builders of the
  published-content cache and the two helpers they share. The draft/published
  marker (`"D:"`/`"P:"`) and the culture suffix (`"-L:" + culture`, nothing for a
  null or empty culture) are modelled as written. Guids are rendered in their
  36-character "D" form and integers as decimal text
  (`TextFormat`), with '-' as the negative sign. The proofs cover these points:
  - every key starts with `NuCache.` and ends with `]`;
  - the text before the first `[` names the builder, so keys from different
    builders never collide;
  - draft and published keys differ;
  - null and empty cultures share keys;
  - each builder except content-by-route is injective in its arguments;
  - content-by-route is not injective, and a concrete collision is given.
- **Content navigation** (`ContentTree`, `PublishedContentFixture`). A snapshot is a
  map from node id to its stored record (parent, path, level, sort order, content
  type, update date, navigation-hide flag) plus the document order. The
  navigation queries the published-content tests exercise are functions over it:
  - `Children`, `FirstChild`, `Ancestors[OrSelf]`, `AncestorOrSelf(level)`;
  - `IsAncestor[OrSelf]`, `IsDescendant[OrSelf]`, `Descendants[OrSelf]`;
  - `Siblings[AndSelf]`, `IsVisible`, and the LINQ `Where`/`GroupBy`/`OrderBy`
    uses.

  General lemmas relate these queries to each other and to the stored paths. The
  test fixture is a literal snapshot, proved well formed, and every assertion of
  the navigation tests is proved about it.
- **Public-access rules** (`PublicAccess`).
  - `RenameMemberGroupRoleRules` is a method on a service object whose access
    entries are renamed in place. Each `Save` call is recorded in a log.
  - The access decision is modelled as functions: the private `HasAccess`, the
    document-id overload and the argument checks of `HasAccessAsync`. Errors are
    `Result` values carrying the exception kind and its parameter name.
- **Key/value service** (`KeyValueStore`). This is a class over a
  `map<string, string>` with `GetValue`, `SetValue`, `TrySetValue` and `Find`.
  Each of the six integration tests is a method that runs the test's steps on a
  fresh service and states the test's assertions as its postcondition.
- **Back-office external login provider** (`ExternalLogin`). A provider is an
  immutable value. It has a null-checking constructor, equality by scheme name
  alone, and a hash over the scheme name.

`Wrappers` holds `Option` and `Result`, and `Sequences` holds the sequence
facts the navigation model needs: duplicate-freedom, a stable insertion sort, and
the uniqueness of sorted arrangements.

Paths in the table below are relative to the Umbraco repository root.

## Model

| member | source | states |
|---|---|---|
| CacheKeys.DraftOrPub | src/Umbraco.PublishedCache.NuCache/CacheKeys.cs:9-12 | the marker is two characters ending in ':'; it starts with 'D' exactly when previewing and with 'P' exactly when not |
| CacheKeys.LangId | src/Umbraco.PublishedCache.NuCache/CacheKeys.cs:15-16 | the suffix is empty iff the culture is null or empty; otherwise it is "-L:" followed by the culture |
| CacheKeys.LangIdMatches | src/Umbraco.PublishedCache.NuCache/CacheKeys.cs:15-16 | two cultures give the same suffix iff they are equal or both null-or-empty |
| CacheKeys.RegionOf | src/Umbraco.PublishedCache.NuCache/CacheKeys.cs:18-60 | the region read back from a key is a bracket-free prefix of it |
| CacheKeys.Key | src/Umbraco.PublishedCache.NuCache/CacheKeys.cs:18-60 | a key built from a region and a body reads back that region and that body, and ends with ']' |
| CacheKeys.KeyInjective | src/Umbraco.PublishedCache.NuCache/CacheKeys.cs:18-60 | two keys are equal iff their regions and their bodies are equal |
| CacheKeys.PublishedContentChildren | src/Umbraco.PublishedCache.NuCache/CacheKeys.cs:18-21 | the key starts with "NuCache.", lies in the children region and ends with ']'; the marker is followed by a second ':' ("D::" or "P::") |
| CacheKeys.ChildrenKeyInjective | src/Umbraco.PublishedCache.NuCache/CacheKeys.cs:18-21 | children keys are equal iff the uids and the preview flags are equal |
| CacheKeys.ContentCacheRoots | src/Umbraco.PublishedCache.NuCache/CacheKeys.cs:23-26 | the key starts with "NuCache.", lies in the content-roots region and ends with ']' |
| CacheKeys.MediaCacheRoots | src/Umbraco.PublishedCache.NuCache/CacheKeys.cs:28-31 | the key starts with "NuCache.", lies in the media-roots region and ends with ']' |
| CacheKeys.RootKeysDiffer | src/Umbraco.PublishedCache.NuCache/CacheKeys.cs:23-31 | a content-roots key never equals a media-roots key; each depends on the preview flag alone, and the two flags give two keys |
| CacheKeys.PublishedContentAsPreviewing | src/Umbraco.PublishedCache.NuCache/CacheKeys.cs:33-36 | the key starts with "NuCache.", lies in the as-previewing region and ends with ']' |
| CacheKeys.AsPreviewingKeyInjective | src/Umbraco.PublishedCache.NuCache/CacheKeys.cs:33-36 | as-previewing keys are equal iff the uids are equal |
| CacheKeys.ProfileName | src/Umbraco.PublishedCache.NuCache/CacheKeys.cs:38-41 | the key starts with "NuCache.", lies in the profile-name region and ends with ']' |
| CacheKeys.ProfileNameKeyInjective | src/Umbraco.PublishedCache.NuCache/CacheKeys.cs:38-41 | profile-name keys are equal iff the user ids are equal |
| CacheKeys.PropertyCacheValues | src/Umbraco.PublishedCache.NuCache/CacheKeys.cs:43-46 | the key starts with "NuCache.", lies in the property-values region and ends with ']' |
| CacheKeys.PropertyCacheValuesInjective | src/Umbraco.PublishedCache.NuCache/CacheKeys.cs:43-46 | property-values keys are equal iff uid, type alias and preview flag are all equal |
| CacheKeys.ContentCacheRouteByContent | src/Umbraco.PublishedCache.NuCache/CacheKeys.cs:52-55 | the key starts with "NuCache.", lies in the route-by-content region and ends with ']' |
| CacheKeys.ShorterIdDiffers | src/Umbraco.PublishedCache.NuCache/CacheKeys.cs:52-55 | an id text followed by an empty or "-L:" suffix never equals a longer id text followed by anything, since the text of an id holds no 'L' |
| CacheKeys.RouteBodyInjective | src/Umbraco.PublishedCache.NuCache/CacheKeys.cs:52-55 | equal route-by-content bodies have equal ids and the same culture up to null/empty |
| CacheKeys.RouteByContentInjective | src/Umbraco.PublishedCache.NuCache/CacheKeys.cs:52-55 | route-by-content keys are equal iff the ids and the preview flags are equal and the cultures agree up to null/empty |
| CacheKeys.ContentCacheContentByRoute | src/Umbraco.PublishedCache.NuCache/CacheKeys.cs:57-60 | the key starts with "NuCache.", lies in the content-by-route region and ends with ']' |
| CacheKeys.NullAndEmptyCultureShareRouteKeys | src/Umbraco.PublishedCache.NuCache/CacheKeys.cs:52-60 | both route keys are the same for a null and for an empty culture |
| CacheKeys.ContentByRouteIsNotInjective | src/Umbraco.PublishedCache.NuCache/CacheKeys.cs:57-60 | a route ending in "-L:" plus a culture with no culture gives the same key as the bare route with that culture |
| CacheKeys.RouteKeysSeparateDrafts | src/Umbraco.PublishedCache.NuCache/CacheKeys.cs:57-60 | the draft and the published content-by-route keys differ for every route and culture |
| CacheKeys.KeyLiesInItsRegion | src/Umbraco.PublishedCache.NuCache/CacheKeys.cs:18-60 | the region of every key is the region name of the builder that made it |
| CacheKeys.RegionsAreDistinct | src/Umbraco.PublishedCache.NuCache/CacheKeys.cs:18-60 | two facts have the same region name iff the same builder keys them |
| CacheKeys.DifferentBuildersNeverCollide | src/Umbraco.PublishedCache.NuCache/CacheKeys.cs:18-60 | keys from two different builders are different |
| CacheKeys.UidKeysAreInjective | src/Umbraco.PublishedCache.NuCache/CacheKeys.cs:18-36 | children keys, and likewise as-previewing keys, coincide exactly for the same fact |
| CacheKeys.RootListKeysAreInjective | src/Umbraco.PublishedCache.NuCache/CacheKeys.cs:23-31 | root-list keys of one region coincide exactly for the same fact |
| CacheKeys.ProfileAndPropertyKeysAreInjective | src/Umbraco.PublishedCache.NuCache/CacheKeys.cs:38-46 | profile-name keys, and likewise property-values keys, coincide exactly for the same fact |
| CacheKeys.SameBuilderKeysAreInjective | src/Umbraco.PublishedCache.NuCache/CacheKeys.cs:18-55 | for every builder except content-by-route, two facts share a key iff they are the same fact |
| CacheKeys.KeysAreCollisionFree | src/Umbraco.PublishedCache.NuCache/CacheKeys.cs:18-60 | unless both facts are content-by-route facts, two facts share a key iff they are the same fact (cultures compared up to null/empty) |
| CacheKeys.DraftAndPublishedKeysDiffer | src/Umbraco.PublishedCache.NuCache/CacheKeys.cs:9-12 | for every builder that takes a preview flag, flipping the flag changes the key |
| TextFormat.IntText | src/Umbraco.PublishedCache.NuCache/CacheKeys.cs:40 | the text of an int is non-empty and made of digits and '-'; it ends in a digit and starts with '-' exactly for a negative number |
| TextFormat.IntTextInjective | src/Umbraco.PublishedCache.NuCache/CacheKeys.cs:40 | distinct integers have distinct texts |
| TextFormat.GuidText | src/Umbraco.PublishedCache.NuCache/CacheKeys.cs:35 | the text of a Guid is 36 characters, each a lower-case hex digit or '-' |
| TextFormat.GuidTextInjective | src/Umbraco.PublishedCache.NuCache/CacheKeys.cs:35 | distinct Guids have distinct texts |
| PublishedContentFixture.FixtureIsWellFormed | src/Umbraco.Tests/PublishedContent/PublishedContentTests.cs:126-158 | the fixture lists every node once in document order; each node's path is its parent's path plus its id (top-level nodes extend [-1]) and its level is the path length minus one |
| ContentTree.PathOf | src/Umbraco.Tests/PublishedContent/PublishedContentTests.cs:126-158 | a node's path starts with the root marker -1 and ends with the node itself |
| ContentTree.Level | src/Umbraco.Tests/PublishedContent/PublishedContentTests.cs:126-158 | a node's level is at least 1 and is its path length minus one |
| ContentTree.Parent | src/Umbraco.Tests/PublishedContent/PublishedContentTests.cs:126-158 | a node has no parent iff it is at level 1; otherwise its parent is stored, one level up, and the parent's path plus the node is the node's path |
| ContentTree.ChildOfMeansParent | src/Umbraco.Tests/PublishedContent/PublishedContentTests.cs:126-158 | a node is filed under `id` iff `Parent` gives `id` |
| ContentTree.PathEntry | src/Umbraco.Tests/PublishedContent/PublishedContentTests.cs:126-158 | every entry of a path after the marker is a node whose own path is the prefix up to it |
| ContentTree.PathDeterminesNode | src/Umbraco.Tests/PublishedContent/PublishedContentTests.cs:126-158 | two nodes with the same path are the same node |
| ContentTree.IsAncestorOrSelf | src/Umbraco.Tests/PublishedContent/PublishedContentTests.cs:411-459 | definition: `a` occurs on `b`'s stored path after the root marker; `AncestorOrSelfIsPathPrefix` and `AncestorOrSelfIsAncestorOrEqual` characterise it |
| ContentTree.IsAncestor | src/Umbraco.Tests/PublishedContent/PublishedContentTests.cs:362-409 | definition: `a` occurs on `b`'s stored path strictly between the root marker and `b`; `AncestorIsProperPathPrefix`, `AncestorIsIrreflexiveAndAsymmetric` and `AncestorIsTransitive` characterise it |
| ContentTree.IsDescendantOrSelf | src/Umbraco.Tests/PublishedContent/PublishedContentTests.cs:537-584 | definition: `b`'s path is a prefix of `a`'s; `DescendantIsConverseOfAncestor` proves it is the converse of `IsAncestorOrSelf` |
| ContentTree.IsDescendant | src/Umbraco.Tests/PublishedContent/PublishedContentTests.cs:488-535 | definition: `b`'s path is a prefix of `a`'s and `b` has the lower level; `DescendantIsConverseOfAncestor` proves it is the converse of `IsAncestor` |
| ContentTree.AncestorOrSelfIsPathPrefix | src/Umbraco.Tests/PublishedContent/PublishedContentTests.cs:412-459 | `a` is `b` or an ancestor of `b` iff `a`'s path is a prefix of `b`'s |
| ContentTree.AncestorIsProperPathPrefix | src/Umbraco.Tests/PublishedContent/PublishedContentTests.cs:363-409 | `a` is a proper ancestor of `b` iff `a`'s path is a prefix of `b`'s and `a` has the lower level |
| ContentTree.AncestorsAreInnerPath | src/Umbraco.Tests/PublishedContent/PublishedContentTests.cs:363-409 | the proper ancestors of a node are the entries of its stored path strictly between the marker and the node |
| ContentTree.AncestorOrSelfIsAncestorOrEqual | src/Umbraco.Tests/PublishedContent/PublishedContentTests.cs:412-459 | `IsAncestorOrSelf(a, b)` holds iff `IsAncestor(a, b)` holds or `a == b` |
| ContentTree.DescendantIsConverseOfAncestor | src/Umbraco.Tests/PublishedContent/PublishedContentTests.cs:489-584 | `IsDescendant(a, b)` iff `IsAncestor(b, a)`, and `IsDescendantOrSelf(a, b)` iff `IsAncestorOrSelf(b, a)` |
| ContentTree.AncestorIsIrreflexiveAndAsymmetric | src/Umbraco.Tests/PublishedContent/PublishedContentTests.cs:363-409 | no node is its own ancestor, and ancestry never holds both ways |
| ContentTree.AncestorIsTransitive | src/Umbraco.Tests/PublishedContent/PublishedContentTests.cs:363-409 | an ancestor of an ancestor is an ancestor |
| ContentTree.Ancestors | src/Umbraco.Tests/PublishedContent/PublishedContentTests.cs:349-360 | the listed ancestors are stored nodes |
| ContentTree.AncestorsAreProperAncestors | src/Umbraco.Tests/PublishedContent/PublishedContentTests.cs:349-360 | `Ancestors` lists each proper ancestor exactly once and nothing else; there are level-minus-one of them |
| ContentTree.AncestorsOrSelf | src/Umbraco.Tests/PublishedContent/PublishedContentTests.cs:336-347 | `AncestorsOrSelf` lists the node and its proper ancestors, each once: as many as the node's level |
| ContentTree.AncestorOrSelf | src/Umbraco.Tests/PublishedContent/PublishedContentTests.cs:314-325 | the parameterless `AncestorOrSelf` is an ancestor-or-self at the node's own level |
| ContentTree.AncestorOrSelfUpTo | src/Umbraco.Tests/PublishedContent/PublishedContentTests.cs:327-334 | `AncestorOrSelf(maxLevel)` is defined iff `maxLevel >= 1`; it is then the ancestor-or-self at the lower of `maxLevel` and the node's level |
| ContentTree.SameLevelAncestorsAgree | src/Umbraco.Tests/PublishedContent/PublishedContentTests.cs:314-334 | a node has at most one ancestor-or-self at each level |
| ContentTree.ChildrenAmong | src/Umbraco.Tests/PublishedContent/PublishedContentTests.cs:126-158 | the selection holds exactly the listed ids filed under `id`, none more often than in the listing |
| ContentTree.Children | src/Umbraco.Tests/PublishedContent/PublishedContentTests.cs:174-229 | the children are exactly the nodes filed under the node, each once, one level down, sorted by sort order |
| ContentTree.ChildrenAreDetermined | src/Umbraco.Tests/PublishedContent/PublishedContentTests.cs:174-229 | a listing of exactly the filed-under nodes with strictly increasing sort orders is `Children` |
| ContentTree.FirstWhere | src/Umbraco.Tests/PublishedContent/PublishedContentTests.cs:231-260 | the result is none iff no element satisfies the predicate; otherwise it is the element at the first position that does |
| ContentTree.FirstMatchHasLeastKey | src/Umbraco.Tests/PublishedContent/PublishedContentTests.cs:231-260 | in a sorted sequence the first match has the least key among all matches |
| ContentTree.FirstChildWhere | src/Umbraco.Tests/PublishedContent/PublishedContentTests.cs:231-260 | `FirstChild(pred)` is none iff no child satisfies `pred`; otherwise it is a matching child with the least sort order among matching children |
| ContentTree.FirstChild | src/Umbraco.Tests/PublishedContent/PublishedContentTests.cs:231-243 | `FirstChild()` is none iff the node has no child; otherwise it is the child with the least sort order |
| ContentTree.FirstChildWhereIsFirstMatch | src/Umbraco.Tests/PublishedContent/PublishedContentTests.cs:245-260 | the child at position `k` is the first match when it matches and no earlier child does |
| ContentTree.MaxLevel | src/Umbraco.Tests/PublishedContent/PublishedContentTests.cs:126-158 | proof helper, the termination measure of the descendant walk: every node's level is at most this bound, and `MaxLevelIsAttained` shows some node reaches it |
| ContentTree.DescendantsOrSelf | src/Umbraco.Tests/PublishedContent/PublishedContentTests.cs:462-473 | definition: the node followed by its descendants, depth first with children in sort order; `DescendantsOrSelfAreExact` proves what it lists |
| ContentTree.Descendants | src/Umbraco.Tests/PublishedContent/PublishedContentTests.cs:475-486 | definition: the subtrees of the node's children, one after the other; `DescendantsAreExact` proves what it lists |
| ContentTree.DescendantsOrSelfAreExact | src/Umbraco.Tests/PublishedContent/PublishedContentTests.cs:462-473 | `DescendantsOrSelf` lists each node on whose path the node lies, each exactly once |
| ContentTree.DescendantsAreExact | src/Umbraco.Tests/PublishedContent/PublishedContentTests.cs:475-486 | `Descendants` lists each node the node is a proper ancestor of, each exactly once |
| ContentTree.DescendantsOfEachAreExact | src/Umbraco.Tests/PublishedContent/PublishedContentTests.cs:462-486 | the concatenated subtrees of distinct same-level nodes list each node under one of them exactly once |
| ContentTree.ChildTowards | src/Umbraco.Tests/PublishedContent/PublishedContentTests.cs:462-486 | below a proper ancestor there is a child of it that is an ancestor-or-self of the node |
| ContentTree.ChildAncestorGivesAncestor | src/Umbraco.Tests/PublishedContent/PublishedContentTests.cs:462-486 | an ancestor-or-self of `x` that is a child of `id` makes `id` a proper ancestor of `x` |
| ContentTree.BelowChildrenIsBelow | src/Umbraco.Tests/PublishedContent/PublishedContentTests.cs:462-486 | lying in the subtree of some child of a node is the same as lying strictly below the node |
| ContentTree.SiblingsAndSelf | src/Umbraco.Tests/PublishedContent/PublishedContentTests.cs:586-626 | a top-level node gets the snapshot's root list; any other node gets its parent's children, each once, itself among them |
| ContentTree.Siblings | src/Umbraco.Tests/PublishedContent/PublishedContentTests.cs:628-668 | `Siblings` is `SiblingsAndSelf` without the node: the node is absent and every other element keeps its multiplicity |
| ContentTree.SiblingsAreOtherChildren | src/Umbraco.Tests/PublishedContent/PublishedContentTests.cs:586-668 | below the top level, `SiblingsAndSelf` is the parent's `Children`, and `Siblings` is that multiset minus the node |
| ContentTree.IsVisible | src/Umbraco.Tests/PublishedContent/PublishedContentTests.cs:304-312 | definition: a node is visible iff its `umbracoNaviHide` property is not set |
| ContentTree.VisibleOnly | src/Umbraco.Tests/PublishedContent/PublishedContentTests.cs:294-302 | the filtered sequence keeps each visible node as often as it occurs and drops the hidden ones |
| ContentTree.CountOfType | src/Umbraco.Tests/PublishedContent/PublishedContentTests.cs:195-214 | the count is the number of positions in the list holding a node of that content type; so it is at most the length, and positive iff some listed node has that type |
| ContentTree.ContentTypesOf | src/Umbraco.Tests/PublishedContent/PublishedContentTests.cs:174-193 | the group keys are exactly the content types with a positive count |
| ContentTree.OrderByUpdateDate | src/Umbraco.Tests/PublishedContent/PublishedContentTests.cs:216-229 | the result is a permutation of the input sorted by update date, and nodes with equal update dates keep their input order (LINQ `OrderBy` is stable) |
| Sequences.SortBy | src/Umbraco.Tests/PublishedContent/PublishedContentTests.cs:216-229 | the sort returns a permutation of its input, sorted by the key |
| Sequences.SortByIsStable | src/Umbraco.Tests/PublishedContent/PublishedContentTests.cs:216-229 | the sort is stable: for every key value, the elements with that key appear in the result in the same order as in the input |
| Sequences.InsertByKeepsEqualKeysInOrder | src/Umbraco.Tests/PublishedContent/PublishedContentTests.cs:216-229 | inserting into a sorted sequence places the new element behind every element with the same key |
| Sequences.InsertByKeepsSorted | src/Umbraco.Tests/PublishedContent/PublishedContentTests.cs:216-229 | inserting into a sorted sequence keeps it sorted |
| Sequences.SortedArrangementIsUnique | src/Umbraco.Tests/PublishedContent/PublishedContentTests.cs:216-229 | elements with pairwise distinct keys have a single sorted arrangement |
| PublishedContentFixture.ChildrenOfHome | src/Umbraco.Tests/PublishedContent/PublishedContentTests.cs:132-157 | the children of 1046 are 1173, 1175 and 4444, in that order |
| PublishedContentFixture.ChildrenOfSub1 | src/Umbraco.Tests/PublishedContent/PublishedContentTests.cs:136-150 | the children of 1173 are 1174, 117, 1177, 1178 and 1176, in that order |
| PublishedContentFixture.ChildTypesOfHome | src/Umbraco.Tests/PublishedContent/PublishedContentTests.cs:174-214 | among the children of 1046 two are Home and one is CustomDocument, and these are the only two groups |
| PublishedContentFixture.ChildrenOfSub1ByUpdateDate | src/Umbraco.Tests/PublishedContent/PublishedContentTests.cs:216-229 | ordered by update date the children of 1173 are 1178, 1177, 1174, 1176, 117 |
| PublishedContentFixture.FirstChildOfLeaf | src/Umbraco.Tests/PublishedContent/PublishedContentTests.cs:231-243 | 1173 has a first child and 1175 has none |
| PublishedContentFixture.FirstChildOfHome | src/Umbraco.Tests/PublishedContent/PublishedContentTests.cs:245-255 | the first child of 1046 is 1173 |
| PublishedContentFixture.FirstHomeChildOfHome | src/Umbraco.Tests/PublishedContent/PublishedContentTests.cs:245-255 | the first Home-typed child of 1046 is 1173 |
| PublishedContentFixture.VisibleAncestorsOfSub2 | src/Umbraco.Tests/PublishedContent/PublishedContentTests.cs:294-312 | 1046 is hidden, 1173 is visible, and one ancestor of 1174 is visible |
| PublishedContentFixture.AncestorAtLevelOne | src/Umbraco.Tests/PublishedContent/PublishedContentTests.cs:314-334 | `AncestorOrSelf()` of 1173 is 1173, and `AncestorOrSelf(1)` of 1174 is 1046 |
| PublishedContentFixture.AncestorsOfSub2 | src/Umbraco.Tests/PublishedContent/PublishedContentTests.cs:336-360 | the ancestors of 1174 are 1173 and 1046; with the node itself they are 1174, 1173 and 1046 |
| PublishedContentFixture.AncestorTable | src/Umbraco.Tests/PublishedContent/PublishedContentTests.cs:362-409 | among 1046, 1173, 1178, 1179, 1172 and 117, `IsAncestor` holds for exactly the eight listed pairs |
| PublishedContentFixture.AncestorOrSelfTable | src/Umbraco.Tests/PublishedContent/PublishedContentTests.cs:411-459 | among the same nodes, `IsAncestorOrSelf` holds for exactly those pairs and the diagonal |
| PublishedContentFixture.DescendantTable | src/Umbraco.Tests/PublishedContent/PublishedContentTests.cs:488-535 | among the same nodes, `IsDescendant` holds for exactly the reversed pairs |
| PublishedContentFixture.DescendantOrSelfTable | src/Umbraco.Tests/PublishedContent/PublishedContentTests.cs:537-584 | among the same nodes, `IsDescendantOrSelf` holds for exactly the reversed pairs and the diagonal |
| PublishedContentFixture.HomeSubtree | src/Umbraco.Tests/PublishedContent/PublishedContentTests.cs:462-486 | 1046 is a proper ancestor of exactly the nine nodes other than 1046 and 1172 |
| PublishedContentFixture.DescendantsOfHome | src/Umbraco.Tests/PublishedContent/PublishedContentTests.cs:475-486 | `Descendants` of 1046 lists those nine nodes, each once |
| PublishedContentFixture.DescendantsOrSelfOfHome | src/Umbraco.Tests/PublishedContent/PublishedContentTests.cs:462-473 | `DescendantsOrSelf` of 1046 lists them and 1046, ten nodes, each once |
| PublishedContentFixture.SiblingsOfTop | src/Umbraco.Tests/PublishedContent/PublishedContentTests.cs:609-614 | with [1046] as the root list, 1046 is its only sibling-or-self and has no siblings |
| PublishedContentFixture.SiblingsUnderHome | src/Umbraco.Tests/PublishedContent/PublishedContentTests.cs:616-618 | each child of 1046 has 1173, 1175 and 4444 as siblings-or-self and the other two as siblings |
| PublishedContentFixture.SiblingsUnderSub1 | src/Umbraco.Tests/PublishedContent/PublishedContentTests.cs:620-624 | each child of 1173 has its five children as siblings-or-self and the other four as siblings |
| PublicAccess.RenameRules | src/Umbraco.Core/Services/PublicAccessServiceExtensions.cs:29-37 | definition: each rule whose type is the role type and whose value equals the old name gets the new name, or "" for a null new name; `RenameLeavesOtherRules` and `RenameClearsOldName` state what it keeps and clears |
| PublicAccess.RenameEntry | src/Umbraco.Core/Services/PublicAccessServiceExtensions.cs:26-38 | definition: an entry with its rules renamed by `RenameRules` and everything else kept |
| PublicAccess.RenameClearsOldName | src/Umbraco.Core/Services/PublicAccessServiceExtensions.cs:29-37 | after a rename no rule holds the old name, unless the old name is the new name's `?? ""` value |
| PublicAccess.RenameLeavesOtherRules | src/Umbraco.Core/Services/PublicAccessServiceExtensions.cs:29-37 | a rename keeps the number of rules and every rule type; non-matching rules come out unchanged, and matching ones get the new name or "" |
| PublicAccess.RenameIsIdempotent | src/Umbraco.Core/Services/PublicAccessServiceExtensions.cs:29-37 | renaming a second time with the same names changes nothing |
| PublicAccess.RenameRoundTrip | src/Umbraco.Core/Services/PublicAccessServiceExtensions.cs:29-37 | renaming to a name no rule holds and back restores every rule |
| PublicAccess.EmptyToNullRewritesSameValue | src/Umbraco.Core/Services/PublicAccessServiceExtensions.cs:22-36 | renaming "" to null matches a rule holding "" yet leaves it as it was |
| PublicAccess.RenameRoleRules | src/Umbraco.Core/Services/PublicAccessServiceExtensions.cs:29-38 | the inner loop returns the renamed rules and reports a save iff some rule matched |
| PublicAccess.ToSaveIsTheMatchingEntries | src/Umbraco.Core/Services/PublicAccessServiceExtensions.cs:39-43 | the saved entries are exactly the renamed forms of the entries holding a matching rule; something is saved iff some entry matched |
| PublicAccess.OneSavePerMatchingEntry | src/Umbraco.Core/Services/PublicAccessServiceExtensions.cs:39-43 | there are as many saves as entries holding a matching rule |
| PublicAccess.PublicAccessService.RenameMemberGroupRoleRules | src/Umbraco.Core/Services/PublicAccessServiceExtensions.cs:19-47 | equal names change nothing and return false; otherwise every entry is renamed in place, the matching entries are appended to the save log in entry order, and the result is true iff some entry matched |
| PublicAccess.EqualsIgnoreCase | src/Umbraco.Core/Services/PublicAccessServiceExtensions.cs:100 | definition: equal lengths and equal characters after ASCII upper-casing (ordinal comparison ignoring case) |
| PublicAccess.IgnoreCaseIsEquivalence | src/Umbraco.Core/Services/PublicAccessServiceExtensions.cs:100 | case-insensitive comparison is reflexive, symmetric and transitive |
| PublicAccess.AnyGrants | src/Umbraco.Core/Services/PublicAccessServiceExtensions.cs:99-102 | the walk returns true iff some rule grants access |
| PublicAccess.CheckRules | src/Umbraco.Core/Services/PublicAccessServiceExtensions.cs:82-103 | in order: a null entry throws `ArgumentNullException("entry")`, a null or empty username throws `ArgumentException("username")`, null roles throw `ArgumentNullException("roles")`; otherwise the answer is true iff some username rule matches ignoring case or some role rule's value is among the roles |
| PublicAccess.MoreRolesKeepAccess | src/Umbraco.Core/Services/PublicAccessServiceExtensions.cs:99-102 | adding roles never takes access away |
| PublicAccess.UsernameCaseDoesNotMatter | src/Umbraco.Core/Services/PublicAccessServiceExtensions.cs:99-102 | two spellings of a username equal ignoring case get the same answer |
| PublicAccess.HasAccessToDocument | src/Umbraco.Core/Services/PublicAccessServiceExtensions.cs:49-58 | missing content or a missing entry grants access; otherwise the rule check decides |
| PublicAccess.IsNullOrWhiteSpace | src/Umbraco.Core/Services/PublicAccessServiceExtensions.cs:71-72 | definition: null, or made only of white-space characters (space and tab through carriage return) |
| PublicAccess.HasAccessAsync | src/Umbraco.Core/Services/PublicAccessServiceExtensions.cs:68-80 | a missing callback, then a blank username, then a blank path are rejected; no entry grants access; otherwise the rule check decides |
| PublicAccess.ValidationPrecedesLookup | src/Umbraco.Core/Services/PublicAccessServiceExtensions.cs:70-74 | invalid arguments give an error whatever the lookup and the callback would return |
| PublicAccess.BlankUsernameChecksDiffer | src/Umbraco.Core/Services/PublicAccessServiceExtensions.cs:49-97 | a blank username is rejected by `HasAccessAsync` but reaches the rules through the document-id overload, and missing content grants access even to a null username |
| KeyValueStore.Matching | src/Umbraco.Tests.Integration/Umbraco.Infrastructure/Services/KeyValueServiceTests.cs:24-42 | the result holds exactly the stored keys starting with the prefix, each with its stored value |
| KeyValueStore.SetOutsidePrefixKeepsMatches | src/Umbraco.Tests.Integration/Umbraco.Infrastructure/Services/KeyValueServiceTests.cs:24-42 | setting a key outside the prefix leaves the search under that prefix as it was |
| KeyValueStore.SetInsidePrefixUpdatesMatches | src/Umbraco.Tests.Integration/Umbraco.Infrastructure/Services/KeyValueServiceTests.cs:24-42 | setting a key under the prefix adds or replaces exactly that entry of the search |
| KeyValueStore.EmptyPrefixFindsEverything | src/Umbraco.Tests.Integration/Umbraco.Infrastructure/Services/KeyValueServiceTests.cs:24-42 | searching with the empty prefix returns the whole table |
| KeyValueStore.KeyValueService.constructor | src/Umbraco.Tests.Integration/Umbraco.Infrastructure/Services/KeyValueServiceTests.cs:21 | a fresh service holds an empty table |
| KeyValueStore.KeyValueService.GetValue | src/Umbraco.Tests.Integration/Umbraco.Infrastructure/Services/KeyValueServiceTests.cs:45-64 | the value is present iff the key is stored, and is then the stored value |
| KeyValueStore.KeyValueService.SetValue | src/Umbraco.Tests.Integration/Umbraco.Infrastructure/Services/KeyValueServiceTests.cs:55-77 | the key now maps to the value, and all other keys keep theirs |
| KeyValueStore.KeyValueService.TrySetValue | src/Umbraco.Tests.Integration/Umbraco.Infrastructure/Services/KeyValueServiceTests.cs:80-105 | the result is true iff the key holds the original value; then it gets the new value, otherwise nothing changes |
| KeyValueStore.KeyValueService.Find | src/Umbraco.Tests.Integration/Umbraco.Infrastructure/Services/KeyValueServiceTests.cs:33 | the result is the prefix search of the current table |
| KeyValueStore.QueryForKeyPrefix | src/Umbraco.Tests.Integration/Umbraco.Infrastructure/Services/KeyValueServiceTests.cs:24-42 | after setting test1 to test4, the search for "test" yields those four entries with their values |
| KeyValueStore.GetMissingKey | src/Umbraco.Tests.Integration/Umbraco.Infrastructure/Services/KeyValueServiceTests.cs:45-52 | a key never set reads as null |
| KeyValueStore.GetExistingKey | src/Umbraco.Tests.Integration/Umbraco.Infrastructure/Services/KeyValueServiceTests.cs:55-64 | a key set to "bar" reads as "bar" |
| KeyValueStore.SetExistingKey | src/Umbraco.Tests.Integration/Umbraco.Infrastructure/Services/KeyValueServiceTests.cs:67-77 | setting "foo" again overwrites it: it reads "buzz" |
| KeyValueStore.TrySetWithCurrentValue | src/Umbraco.Tests.Integration/Umbraco.Infrastructure/Services/KeyValueServiceTests.cs:80-91 | a compare-and-set with the current value succeeds and stores the new value |
| KeyValueStore.TrySetWithOtherValue | src/Umbraco.Tests.Integration/Umbraco.Infrastructure/Services/KeyValueServiceTests.cs:94-105 | a compare-and-set with another value fails and leaves "bar" in place |
| ExternalLogin.NewProvider | src/Umbraco.Web.BackOffice/Security/BackOfficeExternalLoginProvider.cs:11-22 | null properties throw `ArgumentNullException("properties")` first, then a null scheme throws `ArgumentNullException("authenticationType")`; otherwise the provider carries the scheme and the options held under it |
| ExternalLogin.Equals | src/Umbraco.Web.BackOffice/Security/BackOfficeExternalLoginProvider.cs:32 | definition: the other provider is non-null and has the same scheme name; `EqualIffSameButOptions` and `EqualsIsEquivalence` characterise it |
| ExternalLogin.EqualsObject | src/Umbraco.Web.BackOffice/Security/BackOfficeExternalLoginProvider.cs:31 | definition: the typed `Equals` applied to the object cast to a provider (null when it is not one); `EqualsObjectCases` spells out the cases |
| ExternalLogin.HashCodeOf | src/Umbraco.Web.BackOffice/Security/BackOfficeExternalLoginProvider.cs:33 | definition: `HashCode.Combine` over the scheme name alone; `EqualProvidersHashAlike` proves equal providers hash alike |
| ExternalLogin.EqualIffSameButOptions | src/Umbraco.Web.BackOffice/Security/BackOfficeExternalLoginProvider.cs:32 | two providers are equal iff they differ in nothing but their options |
| ExternalLogin.SameSchemeProvidersAreEqual | src/Umbraco.Web.BackOffice/Security/BackOfficeExternalLoginProvider.cs:11-32 | providers built under one scheme name are equal whatever options they were given |
| ExternalLogin.EqualsIsEquivalence | src/Umbraco.Web.BackOffice/Security/BackOfficeExternalLoginProvider.cs:32 | equality is reflexive, symmetric and transitive |
| ExternalLogin.EqualsObjectCases | src/Umbraco.Web.BackOffice/Security/BackOfficeExternalLoginProvider.cs:31-32 | `Equals(object)` is false for null and for objects that are not providers, and otherwise agrees with the typed overload; the typed overload is false for null |
| ExternalLogin.EqualProvidersHashAlike | src/Umbraco.Web.BackOffice/Security/BackOfficeExternalLoginProvider.cs:33 | equal providers have equal hash codes, whatever seed `HashCode.Combine` uses |

## Left out

- The `Constants.Conventions` file is not part of this model. The rule types `"MemberUsername"` and `"MemberRole"` are written out as constants.
- PublicAccess.PublicAccessService.RenameMemberGroupRoleRules: entries and rules are values that the method reassigns, not shared objects. The model does not capture aliasing between `GetAll`'s entries and other holders of them. `Save` is a log append; the persistence behind it is not modelled.
- `IPublicAccessService.GetEntryForContent`, `IContentService.GetById` and the roles callback are not modelled. Their results are parameters of `HasAccessToDocument` and `HasAccessAsync`, and the `async`/`await` around the callback is left out.
- PublicAccess.HasAccessAsync: the lookup key `path.EnsureEndsWith(path)` is not modelled. That string helper is not part of this model; the lookup result is a parameter.
- PublicAccess.EqualsIgnoreCase: `StringComparison.OrdinalIgnoreCase` is modelled as ASCII case folding only. Unicode case mapping is not modelled.
- PublicAccess.IsNullOrWhiteSpace: `string.IsNullOrWhiteSpace` is modelled over the ASCII white-space characters only. Unicode separators such as U+00A0 and U+0085 are not modelled.
- The key/value service's implementation and its database persistence are not part of this model. The class models the contract its integration tests assert. `Find` is modelled as an ordinal prefix match; the database's `LIKE` collation and case sensitivity are not modelled.
- ExternalLogin.NewProvider: `IOptionsMonitor.Get` is modelled as a function from scheme name to options. Named-options configuration and change notification are not modelled.
- ExternalLogin.HashCodeOf: `HashCode.Combine` is randomly seeded per process. It is a parameter here, so only hash equality between equal providers is stated.
- TextFormat.IntText: the negative sign is fixed to '-'. The source concatenates `int` values, which uses the current culture's NegativeSign, and some cultures use U+2212 instead; the super-user id -1 is a real negative input. The proof that route-by-content keys are injective relies on the sign holding no 'L'.
- TextFormat.GuidText: `Guid.ToString()` is modelled from the Guid's 32 hex digits in print order. The byte layout of `System.Guid` is not modelled.
- The published-content extension methods are not part of this model. Navigation is defined from what the tests assert, over a snapshot whose records carry the fixture's XML attributes. The properties used are `id`, `parentID`, `level`, `path`, `sortOrder`, `updateDate`, the element name as content type, and `umbracoNaviHide`.
- `SiblingsAndSelf` of a top-level node returns the snapshot's root list, which is a parameter. The sibling tests mock that list as [1046] alone, although 1172 is also a top-level node of the fixture.
- ContentTree.IsVisible: visibility is "the node's `umbracoNaviHide` property is not set". Property-value conversion and the value-fallback service are not modelled.
- The test harness (dependency injection, mocks, the type loader, XML parsing of the fixture) is not modelled. The property and fragment tests are also left out: `IsComposedOf`, `HasProperty`, `HasValue` and the `Fragment*` tests.
- Dates in the fixture are written as yyyymmddhhmmss numbers. This keeps their order, which is all `OrderBy(UpdateDate)` uses.
