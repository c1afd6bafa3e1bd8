/** The sidebar navigation of the main layout
    (src/components/layout/main-layout.tsx): which menu entry is active for
    the current pathname, and the title shown in the page header. */
module Navigation {

  import opened Types
  import opened Text

  /** `s.filter(Boolean)` on strings: drops the empty pieces and keeps every
      other piece as often as it occurs (in order: `DropEmptyConcat`). */
  function DropEmpty(pieces: seq<string>): (r: seq<string>)
    ensures |r| <= |pieces|
    ensures forall i :: 0 <= i < |r| ==> r[i] != "" && r[i] in pieces
    ensures forall p :: multiset(r)[p] == if p == "" then 0 else multiset(pieces)[p]
  {
    if |pieces| == 0 then []
    else
      var head: seq<string> := if pieces[0] == "" then [] else [pieces[0]];
      var rest := DropEmpty(pieces[1..]);
      assert pieces == [pieces[0]] + pieces[1..];
      assert multiset(pieces) == multiset([pieces[0]]) + multiset(pieces[1..]);
      assert multiset(head + rest) == multiset(head) + multiset(rest);
      head + rest
  }

  lemma {:induction false} DropEmptyConcat(a: seq<string>, b: seq<string>)
    ensures DropEmpty(a + b) == DropEmpty(a) + DropEmpty(b)
  {
    if |a| > 0 {
      assert (a + b)[1..] == a[1..] + b;
      DropEmptyConcat(a[1..], b);
    } else {
      assert a + b == b;
    }
  }

  /** `path.split('/').filter(Boolean)`: the non-empty segments of a path. */
  function Segments(path: string): (segs: seq<string>)
    ensures forall i :: 0 <= i < |segs| ==> segs[i] != ""
    ensures forall i, j :: 0 <= i < |segs| && 0 <= j < |segs[i]| ==> segs[i][j] != '/'
  {
    DropEmpty(Split(path, '/'))
  }

  /** A separator splits the segments of a path into those of its two sides. */
  lemma SegmentsAt(a: string, b: string)
    ensures Segments(a + "/" + b) == Segments(a) + Segments(b)
  {
    SplitAt(a, '/', b);
    DropEmptyConcat(Split(a, '/'), Split(b, '/'));
  }

  /** A non-empty name without a slash is one segment. */
  lemma SegmentsOfName(w: string)
    requires w != "" && forall i :: 0 <= i < |w| ==> w[i] != '/'
    ensures Segments(w) == [w]
  {
    SplitPlain(w, '/');
  }

  lemma SegmentsOfEmpty()
    ensures Segments("") == []
  {
  }

  /** A leading slash does not change the segments. */
  lemma SegmentsIgnoreLeadingSlash(a: string)
    ensures Segments("/" + a) == Segments(a)
  {
    SegmentsOfEmpty();
    SegmentsAt("", a);
    assert "" + "/" + a == "/" + a;
  }

  /** A trailing slash does not change the segments. */
  lemma SegmentsIgnoreTrailingSlash(a: string)
    ensures Segments(a + "/") == Segments(a)
  {
    SegmentsOfEmpty();
    SegmentsAt(a, "");
    assert a + "/" + "" == a + "/";
  }

  /** A doubled slash counts as one. */
  lemma SegmentsIgnoreDoubledSlash(a: string, b: string)
    ensures Segments(a + "//" + b) == Segments(a + "/" + b)
  {
    SegmentsAt(a, "/" + b);
    assert a + "/" + ("/" + b) == a + "//" + b;
    SegmentsIgnoreLeadingSlash(b);
    SegmentsAt(a, b);
  }

  /** The predicate handed to `every`: segment `i` of the href is within the
      first `matchSegments` and equals segment `i` of the pathname (an index
      past the end of the pathname reads `undefined`, never equal). */
  predicate SegmentMatches(hrefSegs: seq<string>, pathSegs: seq<string>, matchSegments: int, i: nat)
    requires i < |hrefSegs|
  {
    i < matchSegments && i < |pathSegs| && hrefSegs[i] == pathSegs[i]
  }

  /** `hrefSegs.every(...)` from position `i` on. */
  predicate EveryFrom(hrefSegs: seq<string>, pathSegs: seq<string>, matchSegments: int, i: nat)
    decreases |hrefSegs| - i
  {
    i >= |hrefSegs| || (SegmentMatches(hrefSegs, pathSegs, matchSegments, i) && EveryFrom(hrefSegs, pathSegs, matchSegments, i + 1))
  }

  lemma {:induction false} EveryFromMeans(hrefSegs: seq<string>, pathSegs: seq<string>, matchSegments: int, i: nat)
    requires i <= |hrefSegs|
    ensures EveryFrom(hrefSegs, pathSegs, matchSegments, i) <==>
      forall k :: i <= k < |hrefSegs| ==> SegmentMatches(hrefSegs, pathSegs, matchSegments, k)
    decreases |hrefSegs| - i
  {
    if i < |hrefSegs| {
      EveryFromMeans(hrefSegs, pathSegs, matchSegments, i + 1);
    }
  }

  /** The whole `every` call holds exactly for a segment prefix. */
  lemma EveryMeansPrefix(pathname: string, href: string, matchSegments: int)
    ensures EveryFrom(Segments(href), Segments(pathname), matchSegments, 0) <==> SegmentPrefix(pathname, href, matchSegments)
  {
    var h, p := Segments(href), Segments(pathname);
    EveryFromMeans(h, p, matchSegments, 0);
    if SegmentPrefix(pathname, href, matchSegments) {
      forall k | 0 <= k < |h| ensures SegmentMatches(h, p, matchSegments, k) {
        assert h[k] == p[..|h|][k];
      }
    }
    if forall k :: 0 <= k < |h| ==> SegmentMatches(h, p, matchSegments, k) {
      if |h| > 0 {
        assert SegmentMatches(h, p, matchSegments, |h| - 1);
      }
      assert h == p[..|h|] by {
        forall k | 0 <= k < |h| ensures h[k] == p[..|h|][k] {
          assert SegmentMatches(h, p, matchSegments, k);
        }
      }
    }
  }

  /** `href` is a prefix of the pathname, segment by segment, of at most
      `matchSegments` segments (an href without segments always is). */
  ghost predicate SegmentPrefix(pathname: string, href: string, matchSegments: int) {
    var h, p := Segments(href), Segments(pathname);
    && (|h| == 0 || |h| <= matchSegments)
    && |h| <= |p|
    && h == p[..|h|]
  }

  /** `isActive(href, matchSegments)` for the current `pathname`: the home
      link only for the root itself, any other link when its segments lead
      the pathname's. */
  function IsActive(pathname: string, href: string, matchSegments: int): (active: bool)
    ensures href == "/" ==> (active <==> pathname == "/")
    ensures href != "/" ==> (active <==> SegmentPrefix(pathname, href, matchSegments))
  {
    EveryMeansPrefix(pathname, href, matchSegments);
    if href == "/" then pathname == "/" else EveryFrom(Segments(href), Segments(pathname), matchSegments, 0)
  }

  /** A link with more segments than it may match is never active. */
  lemma TooManySegmentsInactive(pathname: string, href: string, matchSegments: int)
    requires href != "/" && |Segments(href)| > 0 && |Segments(href)| > matchSegments
    ensures !IsActive(pathname, href, matchSegments)
  {
  }

  /** A pathname with fewer segments than the link never activates it. */
  lemma ShorterPathInactive(pathname: string, href: string, matchSegments: int)
    requires href != "/" && |Segments(pathname)| < |Segments(href)|
    ensures !IsActive(pathname, href, matchSegments)
  {
  }

  /** A link other than "/" without any segment (such as "" or "//") is
      active on every page. */
  lemma NoSegmentsAlwaysActive(pathname: string, href: string, matchSegments: int)
    requires href != "/" && Segments(href) == []
    ensures IsActive(pathname, href, matchSegments)
  {
  }

  /** Apart from the home link, only the segments of the pathname matter. */
  lemma ActiveDependsOnSegments(p1: string, p2: string, href: string, matchSegments: int)
    requires href != "/" && Segments(p1) == Segments(p2)
    ensures IsActive(p1, href, matchSegments) == IsActive(p2, href, matchSegments)
  {
  }

  /** A name below the root: "/name" is the single segment `name`. */
  lemma SegmentsOfRootName(w: string)
    requires w != "" && forall i :: 0 <= i < |w| ==> w[i] != '/'
    ensures Segments("/" + w) == [w]
  {
    SegmentsIgnoreLeadingSlash(w);
    SegmentsOfName(w);
  }

  /** A one-segment link is active on every page one level below it. */
  lemma LinkActiveBelow(name: string, sub: string)
    requires name != "" && forall i :: 0 <= i < |name| ==> name[i] != '/'
    requires sub != "" && forall i :: 0 <= i < |sub| ==> sub[i] != '/'
    ensures IsActive("/" + name + "/" + sub, "/" + name, 1)
  {
    SegmentsOfRootName(name);
    SegmentsAt("/" + name, sub);
    SegmentsOfName(sub);
    assert "/" + name != "/";
  }

  lemma CompetitionsIsAName()
    ensures forall i :: 0 <= i < |"competitions"| ==> "competitions"[i] != '/'
  {
  }

  lemma CompOneIsAName()
    ensures forall i :: 0 <= i < |"comp-1"| ==> "comp-1"[i] != '/'
  {
  }

  /** The segments of the competitions link. */
  lemma CompetitionsSegments()
    ensures Segments("/competitions") == ["competitions"]
  {
    CompetitionsIsAName();
    SegmentsOfRootName("competitions");
  }

  /** "/a/b" is the two segments `a` and `b`. */
  lemma SegmentsOfTwoNames(a: string, b: string)
    requires a != "" && forall i :: 0 <= i < |a| ==> a[i] != '/'
    requires b != "" && forall i :: 0 <= i < |b| ==> b[i] != '/'
    ensures Segments("/" + a + "/" + b) == [a, b]
  {
    SegmentsOfRootName(a);
    SegmentsAt("/" + a, b);
    SegmentsOfName(b);
  }

  lemma CompetitionPagePath()
    ensures "/" + "competitions" + "/" + "comp-1" == "/competitions/comp-1"
  {
  }

  /** The segments of a competition's page. */
  lemma CompetitionPageSegments()
    ensures Segments("/competitions/comp-1") == ["competitions", "comp-1"]
  {
    CompetitionsIsAName();
    CompOneIsAName();
    SegmentsOfTwoNames("competitions", "comp-1");
    CompetitionPagePath();
  }

  /** The competitions link stays active on a competition's own page, where
      the home link is not. */
  lemma CompetitionPageActivatesCompetitions()
    ensures IsActive("/competitions/comp-1", "/competitions", 1)
    ensures !IsActive("/competitions/comp-1", "/", 1)
  {
    CompetitionPageSegments();
    CompetitionsSegments();
    assert ["competitions"] == ["competitions", "comp-1"][..1];
  }

  // ---------------------------------------------------------------------
  // A link with more segments than it matches

  /** The predicate `every` was evidently meant to apply: segments past the
      first `matchSegments` are not compared. */
  predicate SegmentMatchesUpTo(hrefSegs: seq<string>, pathSegs: seq<string>, matchSegments: int, i: nat)
    requires i < |hrefSegs|
  {
    i >= matchSegments || (i < |pathSegs| && hrefSegs[i] == pathSegs[i])
  }

  predicate EveryUpToFrom(hrefSegs: seq<string>, pathSegs: seq<string>, matchSegments: int, i: nat)
    decreases |hrefSegs| - i
  {
    i >= |hrefSegs| || (SegmentMatchesUpTo(hrefSegs, pathSegs, matchSegments, i) && EveryUpToFrom(hrefSegs, pathSegs, matchSegments, i + 1))
  }

  lemma {:induction false} EveryUpToFromMeans(hrefSegs: seq<string>, pathSegs: seq<string>, matchSegments: int, i: nat)
    requires i <= |hrefSegs|
    ensures EveryUpToFrom(hrefSegs, pathSegs, matchSegments, i) <==>
      forall k :: i <= k < |hrefSegs| ==> SegmentMatchesUpTo(hrefSegs, pathSegs, matchSegments, k)
    decreases |hrefSegs| - i
  {
    if i < |hrefSegs| {
      EveryUpToFromMeans(hrefSegs, pathSegs, matchSegments, i + 1);
    }
  }

  /** `isActive` as evidently intended: only the first `matchSegments`
      segments of the link are compared, so a link is active on its own page
      and below it, and agrees with `IsActive` whenever the link has no more
      segments than it matches. */
  function IsActiveUpTo(pathname: string, href: string, matchSegments: int): (active: bool)
    ensures href == "/" ==> (active <==> pathname == "/")
    ensures href != "/" ==> (active <==> AgreesUpTo(Segments(href), Segments(pathname), matchSegments))
    ensures href != "/" && SegmentPrefix(pathname, href, |Segments(href)|) ==> active
    ensures |Segments(href)| <= matchSegments ==> (active <==> IsActive(pathname, href, matchSegments))
  {
    EveryUpToMeans(pathname, href, matchSegments);
    EveryUpToAt(Segments(href), Segments(pathname), matchSegments);
    if href == "/" then pathname == "/" else EveryUpToFrom(Segments(href), Segments(pathname), matchSegments, 0)
  }

  /** The link's segments agree with the path's at every position below
      `matchSegments`; positions from `matchSegments` on are not compared. */
  ghost predicate AgreesUpTo(hrefSegs: seq<string>, pathSegs: seq<string>, matchSegments: int) {
    forall k :: 0 <= k < |hrefSegs| ==> k >= matchSegments || (k < |pathSegs| && hrefSegs[k] == pathSegs[k])
  }

  lemma EveryUpToAt(hrefSegs: seq<string>, pathSegs: seq<string>, matchSegments: int)
    ensures EveryUpToFrom(hrefSegs, pathSegs, matchSegments, 0) <==> AgreesUpTo(hrefSegs, pathSegs, matchSegments)
  {
    EveryUpToFromMeans(hrefSegs, pathSegs, matchSegments, 0);
    if EveryUpToFrom(hrefSegs, pathSegs, matchSegments, 0) {
      forall k | 0 <= k < |hrefSegs| ensures k >= matchSegments || (k < |pathSegs| && hrefSegs[k] == pathSegs[k]) {
        assert SegmentMatchesUpTo(hrefSegs, pathSegs, matchSegments, k);
      }
    } else {
      var k :| 0 <= k < |hrefSegs| && !SegmentMatchesUpTo(hrefSegs, pathSegs, matchSegments, k);
      assert !(k >= matchSegments || (k < |pathSegs| && hrefSegs[k] == pathSegs[k]));
    }
  }

  lemma EveryUpToMeans(pathname: string, href: string, matchSegments: int)
    ensures var h, p := Segments(href), Segments(pathname);
      && (SegmentPrefix(pathname, href, |h|) ==> EveryUpToFrom(h, p, matchSegments, 0))
      && (|h| <= matchSegments ==>
            (EveryUpToFrom(h, p, matchSegments, 0) <==> EveryFrom(h, p, matchSegments, 0)))
  {
    var h, p := Segments(href), Segments(pathname);
    EveryUpToFromMeans(h, p, matchSegments, 0);
    EveryFromMeans(h, p, matchSegments, 0);
    if SegmentPrefix(pathname, href, |h|) {
      forall k | 0 <= k < |h| ensures SegmentMatchesUpTo(h, p, matchSegments, k) {
        assert h[k] == p[..|h|][k];
      }
    }
    if |h| <= matchSegments {
      forall k | 0 <= k < |h| ensures SegmentMatchesUpTo(h, p, matchSegments, k) <==> SegmentMatches(h, p, matchSegments, k) {
      }
    }
  }

  /** As written, a link with more segments than `matchSegments` is not
      active even on its own page; as intended, it is. */
  lemma LongLinkOwnPage(href: string, matchSegments: int)
    requires href != "/" && |Segments(href)| > 0 && |Segments(href)| > matchSegments
    ensures !IsActive(href, href, matchSegments)
    ensures IsActiveUpTo(href, href, matchSegments)
  {
    var h := Segments(href);
    assert h[..|h|] == h;
  }

  /** The page of a competition, linked with `matchSegments` 1. */
  lemma OwnPageInactive()
    ensures !IsActive("/competitions/comp-1", "/competitions/comp-1", 1)
    ensures IsActiveUpTo("/competitions/comp-1", "/competitions/comp-1", 1)
  {
    CompetitionPageSegments();
    LongLinkOwnPage("/competitions/comp-1", 1);
  }

  /** A menu entry (`NavItem`); the icon is left out. */
  datatype NavItem = NavItem(href: string, title: string, matchSegments: Option<int>)

  /** The menu of the layout, in order. */
  const NavItems: seq<NavItem> := [
    NavItem("/", "Dashboard", Some(1)),
    NavItem("/competitions", "Competitions", Some(1))
  ]

  /** The title shown when no entry is active. */
  const AppTitle: string := "Match Maestro"

  /** The `matchSegments` an entry hands to `isActive`: an absent one takes
      the default of 1. */
  function Limit(item: NavItem): int {
    match item.matchSegments case Some(n) => n case None => 1
  }

  /** `isActive(item.href, item.matchSegments)`, as written, for the sidebar
      highlight and the header's `find`. The root entry is active on the root
      only; an entry with at most `matchSegments` segments is active exactly
      when the corrected check says so. */
  function ItemActive(pathname: string, item: NavItem): (active: bool)
    ensures item.href == "/" ==> (active <==> pathname == "/")
    ensures item.href != "/" && |Segments(item.href)| > Limit(item) && |Segments(item.href)| > 0 ==> !active
    ensures |Segments(item.href)| <= Limit(item) ==> (active <==> IsActiveUpTo(pathname, item.href, Limit(item)))
  {
    IsActive(pathname, item.href, Limit(item))
  }

  /** `navItems.find(...)` from position `i` on, as an index. */
  function FindActive(items: seq<NavItem>, pathname: string, i: nat): (r: Option<nat>)
    ensures r.Some? ==> i <= r.value < |items| && ItemActive(pathname, items[r.value])
    ensures r.Some? ==> forall j :: i <= j < r.value ==> !ItemActive(pathname, items[j])
    ensures r.None? ==> forall j :: i <= j < |items| ==> !ItemActive(pathname, items[j])
    decreases |items| - i
  {
    if i >= |items| then None
    else if ItemActive(pathname, items[i]) then Some(i)
    else FindActive(items, pathname, i + 1)
  }

  /** Entry `i` is active and no entry before it is. */
  ghost predicate FirstActive(items: seq<NavItem>, pathname: string, i: int) {
    0 <= i < |items| && ItemActive(pathname, items[i]) && forall j :: 0 <= j < i ==> !ItemActive(pathname, items[j])
  }

  /** `find` stops at the first active entry. */
  lemma FirstActiveFound(items: seq<NavItem>, pathname: string)
    ensures forall i :: FirstActive(items, pathname, i) ==> FindActive(items, pathname, 0) == Some(i)
  {
    forall i | FirstActive(items, pathname, i) ensures FindActive(items, pathname, 0) == Some(i) {
    }
  }

  /** The header title: the label of the first active entry, or the
      application's name when there is none (or its label is empty). */
  function HeaderLabel(items: seq<NavItem>, pathname: string): (heading: string)
    ensures (forall j :: 0 <= j < |items| ==> !ItemActive(pathname, items[j])) ==> heading == AppTitle
    ensures heading != AppTitle ==>
      exists i :: 0 <= i < |items| && items[i].title == heading && ItemActive(pathname, items[i])
        && forall j :: 0 <= j < i ==> !ItemActive(pathname, items[j])
    ensures forall i :: FirstActive(items, pathname, i) ==>
      heading == if items[i].title != "" then items[i].title else AppTitle
  {
    FirstActiveFound(items, pathname);
    match FindActive(items, pathname, 0)
    case Some(i) => if items[i].title != "" then items[i].title else AppTitle
    case None => AppTitle
  }

  /** With two entries, the header is the title of the first active one. */
  lemma HeaderOfTwo(items: seq<NavItem>, pathname: string)
    requires |items| == 2 && items[0].title != "" && items[1].title != ""
    ensures HeaderLabel(items, pathname) ==
      if ItemActive(pathname, items[0]) then items[0].title
      else if ItemActive(pathname, items[1]) then items[1].title
      else AppTitle
  {
  }

  /** The dashboard entry is active on the root only. */
  lemma DashboardItem(pathname: string)
    ensures ItemActive(pathname, NavItems[0]) <==> pathname == "/"
  {
  }

  /** The competitions entry is active on every path whose first segment is
      "competitions". */
  lemma CompetitionsItem(pathname: string)
    ensures ItemActive(pathname, NavItems[1]) <==> |Segments(pathname)| > 0 && Segments(pathname)[0] == "competitions"
  {
    CompetitionsSegments();
    assert NavItems[1].href == "/competitions" != "/";
    var p := Segments(pathname);
    if |p| > 0 && p[0] == "competitions" {
      assert ["competitions"] == p[..1];
    }
  }

  /** At most one entry of the sidebar is highlighted on any page. */
  lemma MenuHighlightsOne(pathname: string)
    ensures !(ItemActive(pathname, NavItems[0]) && ItemActive(pathname, NavItems[1]))
  {
    DashboardItem(pathname);
    CompetitionsItem(pathname);
    if pathname == "/" {
      assert pathname == "/" + "";
      SegmentsIgnoreLeadingSlash("");
      SegmentsOfEmpty();
    }
  }

  /** The header of the site: "Dashboard" exactly on the root, "Competitions"
      on every page under /competitions, the application's name elsewhere. */
  lemma SiteHeader(pathname: string)
    ensures HeaderLabel(NavItems, pathname) ==
      if pathname == "/" then "Dashboard"
      else if |Segments(pathname)| > 0 && Segments(pathname)[0] == "competitions" then "Competitions"
      else AppTitle
  {
    HeaderOfTwo(NavItems, pathname);
    DashboardItem(pathname);
    CompetitionsItem(pathname);
  }
}
