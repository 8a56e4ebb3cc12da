/**
  The application sidebar: which navigation entry is highlighted for the
  current pathname, the list of rendered entry elements, and closing the
  sidebar after a click on narrow screens.
*/
module Sidebar {
  import opened Collections

  /** The `to` of each entry of `navItems`, in order. */
  const NavTargets: seq<string> := [
    "/",
    "/ai",
    "/ai/write-article",
    "/ai/blog-titles",
    "/ai/generate-images",
    "/ai/remove-background",
    "/ai/remove-object",
    "/ai/review-resume",
    "/ai/community"
  ]

  /** The Dashboard entry, highlighted only on its own page. */
  const Dashboard: string := "/ai"

  /** Widths below this are the mobile layout. */
  const MobileBreakpoint: int := 768

  /**
    The `isActive` expression of the entry whose target is `to`: an entry is
    highlighted on its own target and only on paths that begin with it.
  */
  predicate IsActive(pathname: string, to: string)
    ensures pathname == to ==> IsActive(pathname, to)
    ensures IsActive(pathname, to) ==> StartsWith(pathname, to)
  {
    pathname == to
    || (to != Dashboard && StartsWith(pathname, to + "/") && assert (to + "/")[..|to|] == to; true)
  }

  /** An entry is highlighted on its own page. */
  lemma ActiveOnExactMatch(to: string)
    ensures IsActive(to, to)
  {
  }

  /** The Dashboard entry is never highlighted by prefix. */
  lemma DashboardOnlyExact(pathname: string)
    ensures IsActive(pathname, Dashboard) <==> pathname == Dashboard
  {
  }

  /**
    Any other entry is highlighted exactly on its page and the pages below it:
    a pathname that only shares the characters of `to` without a `/` right
    after them does not highlight it.
  */
  lemma ActiveBelowTarget(pathname: string, to: string)
    requires to != Dashboard
    ensures IsActive(pathname, to) <==>
      pathname == to || (StartsWith(pathname, to) && |pathname| > |to| && pathname[|to|] == '/')
  {
  }

  lemma SharedPrefixIsNotEnough()
    ensures !IsActive("/ai/communityX", "/ai/community")
  {
    ActiveBelowTarget("/ai/communityX", "/ai/community");
    assert "/ai/communityX"[|"/ai/community"|] == 'X';
  }

  /** The two entries are never highlighted together, whatever the pathname. */
  predicate Exclusive(a: string, b: string) {
    && a != b
    && (a != Dashboard ==> !StartsWith(b, a + "/"))
    && (b != Dashboard ==> !StartsWith(a, b + "/"))
    && (a != Dashboard && b != Dashboard ==>
          !StartsWith(a + "/", b + "/") && !StartsWith(b + "/", a + "/"))
  }

  lemma ExclusiveSound(pathname: string, a: string, b: string)
    requires Exclusive(a, b)
    ensures !(IsActive(pathname, a) && IsActive(pathname, b))
  {
  }

  /** A tool page: `/ai/` followed by one path segment. */
  predicate ToolPath(t: string) {
    |t| > 4 && t[..4] == "/ai/" && forall m :: 4 <= m < |t| ==> t[m] != '/'
  }

  /** `t + "/"` can only open a path whose character at `|t|` is a slash. */
  lemma SlashAfter(s: string, t: string)
    ensures StartsWith(s, t + "/") ==> |s| > |t| && s[|t|] == '/'
  {
  }

  lemma ToolPathsExclusive(a: string, b: string)
    requires ToolPath(a) && ToolPath(b) && a != b
    ensures Exclusive(a, b)
  {
    SlashAfter(b, a);
    SlashAfter(a, b);
    SlashAfter(a + "/", b);
    SlashAfter(b + "/", a);
    assert |a| < |b| ==> (b + "/")[|a|] == b[|a|];
    assert |b| < |a| ==> (a + "/")[|b|] == a[|b|];
    assert (a + "/")[..|a|] == a && (b + "/")[..|b|] == b;
  }

  /**
    The entry list: Home at `/`, the Dashboard at `/ai`, then seven tool pages
    one segment below `/ai/`, all targets different.
  */
  lemma NavTargetsShape()
    ensures |NavTargets| == 9
    ensures NavTargets[0] == "/" && NavTargets[1] == Dashboard
    ensures forall k :: 2 <= k < |NavTargets| ==> ToolPath(NavTargets[k])
    ensures Distinct(NavTargets)
  {
  }

  lemma NavTargetsExclusive(i: nat, j: nat)
    requires i < |NavTargets| && j < |NavTargets| && i != j
    ensures Exclusive(NavTargets[i], NavTargets[j])
  {
    var a, b := NavTargets[i], NavTargets[j];
    NavTargetsShape();
    if 2 <= i && 2 <= j {
      ToolPathsExclusive(a, b);
    } else {
      SlashAfter(a, b);
      SlashAfter(b, a);
      SlashAfter(a + "/", b);
      SlashAfter(b + "/", a);
    }
  }

  /** For any pathname at most one entry of the sidebar is highlighted. */
  lemma AtMostOneActive(pathname: string, i: nat, j: nat)
    requires i < |NavTargets| && j < |NavTargets|
    requires IsActive(pathname, NavTargets[i]) && IsActive(pathname, NavTargets[j])
    ensures i == j
  {
    if i != j {
      NavTargetsExclusive(i, j);
      ExclusiveSound(pathname, NavTargets[i], NavTargets[j]);
    }
  }

  /** On an entry's own page, that entry and no other is highlighted. */
  lemma OwnPageHighlightsOnlyItsEntry(i: nat, j: nat)
    requires i < |NavTargets| && j < |NavTargets|
    ensures IsActive(NavTargets[i], NavTargets[j]) <==> i == j
  {
    if IsActive(NavTargets[i], NavTargets[j]) {
      AtMostOneActive(NavTargets[i], i, j);
    }
  }

  /** A DOM node of a rendered navigation entry. */
  class Element {
  }

  /** The sidebar's state: whether it is open, and the entry nodes collected so far. */
  class SidebarView {
    var sidebar: bool
    var navRefs: seq<Element>

    ghost predicate Valid()
      reads this
    {
      Distinct(navRefs)
    }

    constructor (sidebar: bool)
      ensures Valid() && this.sidebar == sidebar && navRefs == []
    {
      this.sidebar := sidebar;
      navRefs := [];
    }

    /** addToNavRefs: a null ref or one already collected is ignored; otherwise appended. */
    method AddToNavRefs(el: Element?)
      requires Valid()
      modifies this
      ensures Valid()
      ensures sidebar == old(sidebar)
      ensures el == null || el in old(navRefs) ==> navRefs == old(navRefs)
      ensures el != null && el !in old(navRefs) ==> navRefs == old(navRefs) + [el]
      ensures el != null ==> el in navRefs
    {
      if el != null && el !in navRefs {
        navRefs := navRefs + [el];
      }
    }

    /** handleNavClick: close the sidebar on a narrow window, leave it alone otherwise. */
    method HandleNavClick(innerWidth: int)
      modifies this
      ensures navRefs == old(navRefs)
      ensures innerWidth < MobileBreakpoint ==> !sidebar
      ensures innerWidth >= MobileBreakpoint ==> sidebar == old(sidebar)
    {
      if innerWidth < MobileBreakpoint {
        sidebar := false;
      }
    }
  }
}
