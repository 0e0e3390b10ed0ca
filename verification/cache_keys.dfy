/**
 * The NuCache key scheme: every cached fact gets a key of the form
 * `<region>[<body>]`, where the region names the kind of fact and the body
 * embeds the draft/published marker, the identifier and, for routes, the culture.
 */
module CacheKeys {
  import opened Wrappers
  import opened TextFormat

  /** "D:" for the draft (preview) view, "P:" for the published view. */
  function DraftOrPub(previewing: bool): (s: string)
    ensures |s| == 2 && s[1] == ':'
    ensures s[0] == 'D' <==> previewing
    ensures s[0] == 'P' <==> !previewing
  {
    if previewing then "D:" else "P:"
  }

  predicate IsNullOrEmpty(culture: Option<string>)
  {
    culture.None? || culture.value == ""
  }

  /** The culture suffix; it collapses to nothing when there is no culture. */
  function LangId(culture: Option<string>): (s: string)
    ensures s == "" <==> IsNullOrEmpty(culture)
    ensures s != "" ==> |s| > 3 && s[..3] == "-L:" && s[3..] == culture.value
  {
    if IsNullOrEmpty(culture) then "" else "-L:" + culture.value
  }

  /** Two cultures that select the same variant: equal, or both null-or-empty. */
  predicate SameCulture(c: Option<string>, d: Option<string>)
  {
    if IsNullOrEmpty(c) then IsNullOrEmpty(d) else !IsNullOrEmpty(d) && c.value == d.value
  }

  // The eight region names, i.e. the text of each key before its first '['.
  const ChildrenRegion := "NuCache.Content.Children"
  const ContentRootsRegion := "NuCache.ContentCache.Roots"
  const MediaRootsRegion := "NuCache.MediaCache.Roots"
  const AsPreviewingRegion := "NuCache.Content.AsPreviewing"
  const ProfileNameRegion := "NuCache.Profile.Name"
  const PropertyValuesRegion := "NuCache.Property.CacheValues"
  const RouteByContentRegion := "NuCache.ContentCache.RouteByContent"
  const ContentByRouteRegion := "NuCache.ContentCache.ContentByRoute"

  predicate NoBracket(s: string) { forall i :: 0 <= i < |s| ==> s[i] != '[' }

  /** The text before the first '[' of a key. */
  function RegionOf(key: string): (r: string)
    ensures NoBracket(r) && r <= key
  {
    if key == [] || key[0] == '[' then [] else [key[0]] + RegionOf(key[1..])
  }

  lemma {:induction false} RegionOfKey(region: string, rest: string)
    requires NoBracket(region)
    ensures RegionOf(region + "[" + rest) == region
  {
    if region != [] {
      assert (region + "[" + rest)[1..] == region[1..] + "[" + rest;
      RegionOfKey(region[1..], rest);
    }
  }

  /** Builds `<region>[<body>]`. */
  function Key(region: string, body: string): (key: string)
    requires NoBracket(region)
    ensures RegionOf(key) == region && key[..|region|] == region
    ensures |key| == |region| + |body| + 2 && key[|key| - 1] == ']'
    ensures key[|region| + 1..|key| - 1] == body
  {
    RegionOfKey(region, body + "]");
    assert region + "[" + body + "]" == region + "[" + (body + "]");
    region + "[" + body + "]"
  }

  /** Keys with equal texts have equal regions and equal bodies. */
  lemma KeyInjective(r1: string, b1: string, r2: string, b2: string)
    requires NoBracket(r1) && NoBracket(r2)
    ensures Key(r1, b1) == Key(r2, b2) <==> r1 == r2 && b1 == b2
  {
    if Key(r1, b1) == Key(r2, b2) {
      assert RegionOf(Key(r1, b1)) == r1;
      assert Key(r1, b1)[|r1| + 1..|Key(r1, b1)| - 1] == b1;
    }
  }

  lemma RegionNamesAreValid()
    ensures NoBracket(ChildrenRegion) && NoBracket(ContentRootsRegion)
    ensures NoBracket(MediaRootsRegion) && NoBracket(AsPreviewingRegion)
    ensures NoBracket(ProfileNameRegion) && NoBracket(PropertyValuesRegion)
    ensures NoBracket(RouteByContentRegion) && NoBracket(ContentByRouteRegion)
  {
  }

  predicate StartsWithNuCache(key: string) { |key| >= 8 && key[..8] == "NuCache." }

  lemma RegionNamesStartWithNuCache()
    ensures StartsWithNuCache(ChildrenRegion) && StartsWithNuCache(ContentRootsRegion)
    ensures StartsWithNuCache(MediaRootsRegion) && StartsWithNuCache(AsPreviewingRegion)
    ensures StartsWithNuCache(ProfileNameRegion) && StartsWithNuCache(PropertyValuesRegion)
    ensures StartsWithNuCache(RouteByContentRegion) && StartsWithNuCache(ContentByRouteRegion)
  {
  }

  /** A key in `region` starts with "NuCache." when the region name does. */
  lemma KeyStartsWithNuCache(region: string, body: string)
    requires NoBracket(region) && StartsWithNuCache(region)
    ensures StartsWithNuCache(Key(region, body))
  {
    var key := Key(region, body);
    assert key[..8] == key[..|region|][..8];
  }

  /** Key of the child list of a content node: the marker, then ':' again, then the uid. */
  function PublishedContentChildren(contentUid: Guid, previewing: bool): (key: string)
    ensures StartsWithNuCache(key) && RegionOf(key) == ChildrenRegion && key[|key| - 1] == ']'
    ensures |key| > |ChildrenRegion| + 4
    ensures key[|ChildrenRegion| + 1..|ChildrenRegion| + 4] == (if previewing then "D::" else "P::")
  {
    var body := DraftOrPub(previewing) + ":" + GuidText(contentUid);
    RegionNamesAreValid();
    RegionNamesStartWithNuCache();
    KeyStartsWithNuCache(ChildrenRegion, body);
    assert Key(ChildrenRegion, body)[|ChildrenRegion| + 1..|ChildrenRegion| + 4] == body[..3];
    Key(ChildrenRegion, body)
  }

  function ContentCacheRoots(previewing: bool): (key: string)
    ensures StartsWithNuCache(key) && RegionOf(key) == ContentRootsRegion && key[|key| - 1] == ']'
  {
    RegionNamesAreValid();
    RegionNamesStartWithNuCache();
    KeyStartsWithNuCache(ContentRootsRegion, DraftOrPub(previewing));
    Key(ContentRootsRegion, DraftOrPub(previewing))
  }

  function MediaCacheRoots(previewing: bool): (key: string)
    ensures StartsWithNuCache(key) && RegionOf(key) == MediaRootsRegion && key[|key| - 1] == ']'
  {
    RegionNamesAreValid();
    RegionNamesStartWithNuCache();
    KeyStartsWithNuCache(MediaRootsRegion, DraftOrPub(previewing));
    Key(MediaRootsRegion, DraftOrPub(previewing))
  }

  function PublishedContentAsPreviewing(contentUid: Guid): (key: string)
    ensures StartsWithNuCache(key) && RegionOf(key) == AsPreviewingRegion && key[|key| - 1] == ']'
  {
    RegionNamesAreValid();
    RegionNamesStartWithNuCache();
    KeyStartsWithNuCache(AsPreviewingRegion, GuidText(contentUid));
    Key(AsPreviewingRegion, GuidText(contentUid))
  }

  function ProfileName(userId: int): (key: string)
    ensures StartsWithNuCache(key) && RegionOf(key) == ProfileNameRegion && key[|key| - 1] == ']'
  {
    RegionNamesAreValid();
    RegionNamesStartWithNuCache();
    KeyStartsWithNuCache(ProfileNameRegion, IntText(userId));
    Key(ProfileNameRegion, IntText(userId))
  }

  /** Note: no ':' between the marker and the uid here, unlike the children key. */
  function PropertyCacheValues(contentUid: Guid, typeAlias: string, previewing: bool): (key: string)
    ensures StartsWithNuCache(key) && RegionOf(key) == PropertyValuesRegion && key[|key| - 1] == ']'
  {
    var body := DraftOrPub(previewing) + GuidText(contentUid) + ":" + typeAlias;
    RegionNamesAreValid();
    RegionNamesStartWithNuCache();
    KeyStartsWithNuCache(PropertyValuesRegion, body);
    Key(PropertyValuesRegion, body)
  }

  function ContentCacheRouteByContent(id: int, previewing: bool, culture: Option<string>): (key: string)
    ensures StartsWithNuCache(key) && RegionOf(key) == RouteByContentRegion && key[|key| - 1] == ']'
  {
    var body := DraftOrPub(previewing) + (IntText(id) + LangId(culture));
    RegionNamesAreValid();
    RegionNamesStartWithNuCache();
    KeyStartsWithNuCache(RouteByContentRegion, body);
    Key(RouteByContentRegion, body)
  }

  function ContentCacheContentByRoute(route: string, previewing: bool, culture: Option<string>): (key: string)
    ensures StartsWithNuCache(key) && RegionOf(key) == ContentByRouteRegion && key[|key| - 1] == ']'
  {
    var body := DraftOrPub(previewing) + (route + LangId(culture));
    RegionNamesAreValid();
    RegionNamesStartWithNuCache();
    KeyStartsWithNuCache(ContentByRouteRegion, body);
    Key(ContentByRouteRegion, body)
  }

  lemma LangIdMatches(c: Option<string>, d: Option<string>)
    ensures LangId(c) == LangId(d) <==> SameCulture(c, d)
  {
    if LangId(c) == LangId(d) && !IsNullOrEmpty(c) {
      assert LangId(c)[3..] == c.value && LangId(d)[3..] == d.value;
    }
  }

  /** Route keys for a null and for an empty culture are the same key. */
  lemma NullAndEmptyCultureShareRouteKeys(id: int, route: string, previewing: bool)
    ensures ContentCacheRouteByContent(id, previewing, None) == ContentCacheRouteByContent(id, previewing, Some(""))
    ensures ContentCacheContentByRoute(route, previewing, None) == ContentCacheContentByRoute(route, previewing, Some(""))
  {
  }

  lemma ChildrenKeyInjective(u: Guid, p: bool, v: Guid, q: bool)
    ensures PublishedContentChildren(u, p) == PublishedContentChildren(v, q) <==> u == v && p == q
  {
    RegionNamesAreValid();
    var b1, b2 := DraftOrPub(p) + ":" + GuidText(u), DraftOrPub(q) + ":" + GuidText(v);
    KeyInjective(ChildrenRegion, b1, ChildrenRegion, b2);
    if b1 == b2 {
      SplitEqual(DraftOrPub(p) + ":", GuidText(u), DraftOrPub(q) + ":", GuidText(v));
      GuidTextInjective(u, v);
    }
  }

  /** The content and media root lists never share a key, whatever the preview flags. */
  lemma RootKeysDiffer(p: bool, q: bool)
    ensures ContentCacheRoots(p) != MediaCacheRoots(q)
    ensures ContentCacheRoots(p) == ContentCacheRoots(q) <==> p == q
    ensures MediaCacheRoots(p) == MediaCacheRoots(q) <==> p == q
  {
    RegionNamesAreValid();
    assert ContentRootsRegion != MediaRootsRegion by {
      assert ContentRootsRegion[8] == 'C' && MediaRootsRegion[8] == 'M';
    }
    KeyInjective(ContentRootsRegion, DraftOrPub(p), MediaRootsRegion, DraftOrPub(q));
    KeyInjective(ContentRootsRegion, DraftOrPub(p), ContentRootsRegion, DraftOrPub(q));
    KeyInjective(MediaRootsRegion, DraftOrPub(p), MediaRootsRegion, DraftOrPub(q));
  }

  /** The as-previewing key depends on the uid alone, and distinct uids give distinct keys. */
  lemma AsPreviewingKeyInjective(u: Guid, v: Guid)
    ensures PublishedContentAsPreviewing(u) == PublishedContentAsPreviewing(v) <==> u == v
  {
    RegionNamesAreValid();
    KeyInjective(AsPreviewingRegion, GuidText(u), AsPreviewingRegion, GuidText(v));
    if GuidText(u) == GuidText(v) {
      GuidTextInjective(u, v);
    }
  }

  /** The profile-name key depends on the user id alone, and distinct ids give distinct keys. */
  lemma ProfileNameKeyInjective(i: int, j: int)
    ensures ProfileName(i) == ProfileName(j) <==> i == j
  {
    RegionNamesAreValid();
    KeyInjective(ProfileNameRegion, IntText(i), ProfileNameRegion, IntText(j));
    if IntText(i) == IntText(j) {
      IntTextInjective(i, j);
    }
  }

  /** The property-values key determines the uid, the type alias and the preview flag. */
  lemma PropertyCacheValuesInjective(u: Guid, a: string, p: bool, v: Guid, b: string, q: bool)
    ensures PropertyCacheValues(u, a, p) == PropertyCacheValues(v, b, q) <==> u == v && a == b && p == q
  {
    RegionNamesAreValid();
    var h1, h2 := DraftOrPub(p) + GuidText(u), DraftOrPub(q) + GuidText(v);
    KeyInjective(PropertyValuesRegion, h1 + ":" + a, PropertyValuesRegion, h2 + ":" + b);
    if h1 + ":" + a == h2 + ":" + b {
      SplitEqual(h1 + ":", a, h2 + ":", b);
      SplitEqual(h1, ":", h2, ":");
      SplitEqual(DraftOrPub(p), GuidText(u), DraftOrPub(q), GuidText(v));
      GuidTextInjective(u, v);
    }
  }

  /** The text of an id: digits and '-', ending with a digit. */
  predicate IdLike(s: string)
  {
    |s| >= 1 && IsDigit(s[|s| - 1]) && forall k :: 0 <= k < |s| ==> IsDigit(s[k]) || s[k] == '-'
  }

  /**
   * An id text followed by a culture suffix is never a longer id text followed by a suffix:
   * the suffix starts with "-L", and 'L' cannot occur in an id text.
   */
  lemma ShorterIdDiffers(s: string, l: string, t: string, m: string)
    requires IdLike(s) && IdLike(t) && |s| < |t|
    requires l == "" || (|l| > 3 && l[..3] == "-L:")
    ensures s + l != t + m
  {
    var k := |s|;
    if l != "" && |s + l| == |t + m| {
      assert (s + l)[k] == '-' && (s + l)[k + 1] == 'L';
      if k + 1 < |t| {
        assert (t + m)[k + 1] == t[k + 1];
      } else {
        assert (t + m)[k] == t[|t| - 1];
      }
    }
  }

  /** The body of a route-by-content key determines the id and the culture. */
  lemma RouteBodyInjective(i: int, c: Option<string>, j: int, d: Option<string>)
    requires IntText(i) + LangId(c) == IntText(j) + LangId(d)
    ensures i == j && SameCulture(c, d)
  {
    var s, t := IntText(i), IntText(j);
    if |s| < |t| {
      ShorterIdDiffers(s, LangId(c), t, LangId(d));
    } else if |t| < |s| {
      ShorterIdDiffers(t, LangId(d), s, LangId(c));
    } else {
      SplitEqual(s, LangId(c), t, LangId(d));
      IntTextInjective(i, j);
      LangIdMatches(c, d);
    }
  }

  /** The route-by-content key determines the id, the preview flag and the culture up to null/empty. */
  lemma RouteByContentInjective(i: int, p: bool, c: Option<string>, j: int, q: bool, d: Option<string>)
    ensures ContentCacheRouteByContent(i, p, c) == ContentCacheRouteByContent(j, q, d)
        <==> i == j && p == q && SameCulture(c, d)
  {
    RegionNamesAreValid();
    var r1, r2 := IntText(i) + LangId(c), IntText(j) + LangId(d);
    KeyInjective(RouteByContentRegion, DraftOrPub(p) + r1, RouteByContentRegion, DraftOrPub(q) + r2);
    if DraftOrPub(p) + r1 == DraftOrPub(q) + r2 {
      SplitEqual(DraftOrPub(p), r1, DraftOrPub(q), r2);
      RouteBodyInjective(i, c, j, d);
    }
    if SameCulture(c, d) {
      LangIdMatches(c, d);
    }
  }

  /**
   * The content-by-route key is not injective: the route is not delimited, so a route
   * ending in "-L:<culture>" without a culture collides with the shorter route with that culture.
   */
  lemma ContentByRouteIsNotInjective(route: string, culture: string, previewing: bool)
    requires culture != ""
    ensures ContentCacheContentByRoute(route + "-L:" + culture, previewing, None)
         == ContentCacheContentByRoute(route, previewing, Some(culture))
  {
    assert (route + "-L:" + culture) + LangId(None) == route + LangId(Some(culture));
  }

  /** Every fact the scheme can name, one constructor per key builder. */
  datatype CachedFact =
    | ChildList(uid: Guid, previewing: bool)
    | ContentRootList(previewing: bool)
    | MediaRootList(previewing: bool)
    | PreviewFlag(uid: Guid)
    | UserProfileName(userId: int)
    | PropertyValueSet(uid: Guid, typeAlias: string, previewing: bool)
    | RouteOfContent(id: int, previewing: bool, culture: Option<string>)
    | ContentAtRoute(route: string, previewing: bool, culture: Option<string>)

  function KeyOf(f: CachedFact): string
  {
    match f
    case ChildList(u, p) => PublishedContentChildren(u, p)
    case ContentRootList(p) => ContentCacheRoots(p)
    case MediaRootList(p) => MediaCacheRoots(p)
    case PreviewFlag(u) => PublishedContentAsPreviewing(u)
    case UserProfileName(i) => ProfileName(i)
    case PropertyValueSet(u, a, p) => PropertyCacheValues(u, a, p)
    case RouteOfContent(i, p, c) => ContentCacheRouteByContent(i, p, c)
    case ContentAtRoute(r, p, c) => ContentCacheContentByRoute(r, p, c)
  }

  function RegionName(f: CachedFact): string
  {
    match f
    case ChildList(_, _) => ChildrenRegion
    case ContentRootList(_) => ContentRootsRegion
    case MediaRootList(_) => MediaRootsRegion
    case PreviewFlag(_) => AsPreviewingRegion
    case UserProfileName(_) => ProfileNameRegion
    case PropertyValueSet(_, _, _) => PropertyValuesRegion
    case RouteOfContent(_, _, _) => RouteByContentRegion
    case ContentAtRoute(_, _, _) => ContentByRouteRegion
  }

  /** Index of the builder that produces a fact. */
  function BuilderIndex(f: CachedFact): nat
  {
    match f
    case ChildList(_, _) => 0
    case ContentRootList(_) => 1
    case MediaRootList(_) => 2
    case PreviewFlag(_) => 3
    case UserProfileName(_) => 4
    case PropertyValueSet(_, _, _) => 5
    case RouteOfContent(_, _, _) => 6
    case ContentAtRoute(_, _, _) => 7
  }

  /** Each key lies in its builder's region. */
  lemma KeyLiesInItsRegion(f: CachedFact)
    ensures RegionOf(KeyOf(f)) == RegionName(f)
  {
  }

  /** The eight region names are distinct. */
  lemma RegionsAreDistinct(f: CachedFact, g: CachedFact)
    ensures RegionName(f) == RegionName(g) <==> BuilderIndex(f) == BuilderIndex(g)
  {
    assert ChildrenRegion[8..10] == "Co" && MediaRootsRegion[8..10] == "Me";
    assert AsPreviewingRegion[9] == 'o' && PropertyValuesRegion[9] == 'r';
    assert RouteByContentRegion[21] == 'R' && ContentByRouteRegion[21] == 'C';
  }

  /** Keys built by two different builders are different. */
  lemma DifferentBuildersNeverCollide(f: CachedFact, g: CachedFact)
    requires BuilderIndex(f) != BuilderIndex(g)
    ensures KeyOf(f) != KeyOf(g)
  {
    RegionsAreDistinct(f, g);
    KeyLiesInItsRegion(f);
    KeyLiesInItsRegion(g);
  }

  /** Facts equal up to the null/empty culture distinction. */
  predicate SameFact(f: CachedFact, g: CachedFact)
  {
    match f
    case RouteOfContent(i, p, c) =>
      g.RouteOfContent? && g.id == i && g.previewing == p && SameCulture(c, g.culture)
    case ContentAtRoute(r, p, c) =>
      g.ContentAtRoute? && g.route == r && g.previewing == p && SameCulture(c, g.culture)
    case _ => f == g
  }

  lemma UidKeysAreInjective(f: CachedFact, g: CachedFact)
    requires (f.ChildList? && g.ChildList?) || (f.PreviewFlag? && g.PreviewFlag?)
    ensures KeyOf(f) == KeyOf(g) <==> SameFact(f, g)
  {
    if f.ChildList? {
      ChildrenKeyInjective(f.uid, f.previewing, g.uid, g.previewing);
    } else {
      AsPreviewingKeyInjective(f.uid, g.uid);
    }
  }

  lemma RootListKeysAreInjective(f: CachedFact, g: CachedFact)
    requires (f.ContentRootList? && g.ContentRootList?) || (f.MediaRootList? && g.MediaRootList?)
    ensures KeyOf(f) == KeyOf(g) <==> SameFact(f, g)
  {
    RootKeysDiffer(f.previewing, g.previewing);
  }

  lemma ProfileAndPropertyKeysAreInjective(f: CachedFact, g: CachedFact)
    requires (f.UserProfileName? && g.UserProfileName?) || (f.PropertyValueSet? && g.PropertyValueSet?)
    ensures KeyOf(f) == KeyOf(g) <==> SameFact(f, g)
  {
    if f.UserProfileName? {
      ProfileNameKeyInjective(f.userId, g.userId);
    } else {
      PropertyCacheValuesInjective(f.uid, f.typeAlias, f.previewing, g.uid, g.typeAlias, g.previewing);
    }
  }

  /** Two facts from the same builder share a key only when they are the same fact. */
  lemma SameBuilderKeysAreInjective(f: CachedFact, g: CachedFact)
    requires BuilderIndex(f) == BuilderIndex(g) && !f.ContentAtRoute?
    ensures KeyOf(f) == KeyOf(g) <==> SameFact(f, g)
  {
    if f.ChildList? || f.PreviewFlag? {
      UidKeysAreInjective(f, g);
    } else if f.ContentRootList? || f.MediaRootList? {
      RootListKeysAreInjective(f, g);
    } else if f.UserProfileName? || f.PropertyValueSet? {
      ProfileAndPropertyKeysAreInjective(f, g);
    } else {
      RouteByContentInjective(f.id, f.previewing, f.culture, g.id, g.previewing, g.culture);
    }
  }

  /** Two different facts never share a key; only two content-by-route facts can collide. */
  lemma KeysAreCollisionFree(f: CachedFact, g: CachedFact)
    requires !(f.ContentAtRoute? && g.ContentAtRoute?)
    ensures KeyOf(f) == KeyOf(g) <==> SameFact(f, g)
  {
    if BuilderIndex(f) != BuilderIndex(g) {
      DifferentBuildersNeverCollide(f, g);
    } else {
      SameBuilderKeysAreInjective(f, g);
    }
  }

  /** The draft and the published content-by-route keys differ in the marker after the '['. */
  lemma RouteKeysSeparateDrafts(route: string, culture: Option<string>)
    ensures ContentCacheContentByRoute(route, true, culture) != ContentCacheContentByRoute(route, false, culture)
  {
    var n := |ContentByRouteRegion| + 1;
    assert ContentCacheContentByRoute(route, true, culture)[n] == 'D';
    assert ContentCacheContentByRoute(route, false, culture)[n] == 'P';
  }

  /** The same fact for the other side of the draft/published split; facts without a preview flag stay as they are. */
  function OtherSide(f: CachedFact): CachedFact
  {
    match f
    case ChildList(u, p) => ChildList(u, !p)
    case ContentRootList(p) => ContentRootList(!p)
    case MediaRootList(p) => MediaRootList(!p)
    case PreviewFlag(_) => f
    case UserProfileName(_) => f
    case PropertyValueSet(u, a, p) => PropertyValueSet(u, a, !p)
    case RouteOfContent(i, p, c) => RouteOfContent(i, !p, c)
    case ContentAtRoute(r, p, c) => ContentAtRoute(r, !p, c)
  }

  /** For every region that takes the preview flag, the draft and the published key differ. */
  lemma DraftAndPublishedKeysDiffer(f: CachedFact)
    requires !f.PreviewFlag? && !f.UserProfileName?
    ensures KeyOf(f) != KeyOf(OtherSide(f))
  {
    if f.ContentAtRoute? {
      RouteKeysSeparateDrafts(f.route, f.culture);
    } else {
      KeysAreCollisionFree(f, OtherSide(f));
    }
  }
}
