/**
 * The navigation bar's active-link rule: a link is highlighted when the current
 * path is the link's path or lies below it; the Home link only on "/" itself.
 */
module Navigation {
  import opened Wrappers
  import opened Text

  /** `pathname === path || pathname?.startsWith(`${path}/`)`; `None` is a null pathname. */
  predicate IsActive(pathname: Option<string>, path: string) {
    pathname.Some? && (pathname.value == path || StartsWith(pathname.value, path + "/"))
  }

  /** `isActive('/') && pathname === '/'` */
  predicate HomeActive(pathname: Option<string>) {
    IsActive(pathname, "/") && pathname == Some("/")
  }

  /** The links shown to a signed-in user, in order. */
  const SectionLinks: seq<string> := ["/dashboard", "/matches", "/leaderboard"]

  // ---------------------------------------------------------------------------
  // Properties

  /** Active exactly on the path itself or on a path below it, never on a null pathname. */
  lemma ActiveMeansAtOrBelow(pathname: Option<string>, path: string)
    ensures IsActive(pathname, path) <==>
      pathname.Some? &&
      (pathname.value == path ||
       (|pathname.value| > |path| && pathname.value[..|path|] == path && pathname.value[|path|] == '/'))
  {
    if pathname.Some? {
      var s := pathname.value;
      if |s| > |path| && s[..|path|] == path && s[|path|] == '/' {
        assert s[..|path| + 1] == path + "/";
      }
      if StartsWith(s, path + "/") {
        assert s[..|path|] == (path + "/")[..|path|];
      }
    }
  }

  /** A sibling that only shares a prefix is not active: "/matchesX" does not light "/matches". */
  lemma SiblingNotActive()
    ensures !IsActive(Some("/matchesX"), "/matches")
    ensures IsActive(Some("/matches/12"), "/matches") && IsActive(Some("/matches"), "/matches")
    ensures !IsActive(None, "/matches")
  {
    assert "/matchesX"[..9][8] == 'X' && ("/matches" + "/")[8] == '/';
    assert "/matches/12"[..9] == "/matches" + "/";
  }

  /**
   * `isActive('/')` alone holds on "/" and on paths that start with "//" (it
   * compares with "//", not "/"), so an ordinary page such as "/matches" never
   * lights it; the extra equality leaves the Home link lit on "/" only.
   */
  lemma HomeOnlyAtRoot(pathname: Option<string>)
    ensures HomeActive(pathname) <==> pathname == Some("/")
    ensures forall s :: |s| >= 2 && s[0] == '/' && s[1] == '/' ==> IsActive(Some(s), "/")
    ensures !IsActive(Some("/matches"), "/")
  {
    forall s | |s| >= 2 && s[0] == '/' && s[1] == '/'
      ensures IsActive(Some(s), "/")
    {
      assert s[..2] == "/" + "/";
    }
    assert "/matches"[..2] != "/" + "/";
  }

  /** A path whose second character differs from the link's is not under that link. */
  lemma DifferentSecondChar(s: string, path: string)
    requires |path| >= 2 && |s| >= 2 && s[1] != path[1]
    ensures !IsActive(Some(s), path)
  {
    assert s != path;
    if |path + "/"| <= |s| {
      assert s[..|path + "/"|][1] == s[1];
      assert (path + "/")[1] == path[1];
    }
  }

  /** On any page at most one of the section links is lit. */
  lemma OneSectionAtATime(pathname: Option<string>, i: nat, j: nat)
    requires i < |SectionLinks| && j < |SectionLinks| && i != j
    ensures IsActive(pathname, SectionLinks[i]) ==> !IsActive(pathname, SectionLinks[j])
  {
    var li, lj := SectionLinks[i], SectionLinks[j];
    assert li[1] != lj[1];
    if IsActive(pathname, li) {
      var s := pathname.value;
      ActiveMeansAtOrBelow(pathname, li);
      assert |s| >= |li| >= 2 && s[1] == li[1] by {
        if s != li {
          assert s[..|li|][1] == s[1];
        }
      }
      DifferentSecondChar(s, lj);
    }
  }
}
