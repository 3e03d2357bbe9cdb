/** The navigation bar: seven links, the rule that highlights the current
    one, and the mobile menu's open flag. */
module Navigation {
  import opened Text

  datatype NavItem = NavItem(path: string, caption: string)

  const NavItems: seq<NavItem> := [
    NavItem("/", "Dashboard"),
    NavItem("/hr-database", "HR Database"),
    NavItem("/ask-questions", "Ask Questions"),
    NavItem("/recent-questions", "Recent Questions"),
    NavItem("/expert-answers", "Expert Answers"),
    NavItem("/job-openings", "Job Openings"),
    NavItem("/current-jobs", "Current Jobs")
  ]

  /** isActive: the root link only on the root itself, any other link on
      every pathname beginning with its path. */
  function IsActive(pathname: string, path: string): (active: bool)
    ensures active ==> StartsWith(pathname, path)
    ensures path == "/" ==> (active <==> pathname == "/")
    ensures path != "/" ==> (active <==> StartsWith(pathname, path))
  {
    if path == "/" then pathname == "/" else StartsWith(pathname, path)
  }

  /** Strings that differ at some index are not prefixes of each other. */
  lemma DifferAt(p: string, q: string, k: nat)
    requires k < |p| && k < |q| && p[k] != q[k]
    ensures !StartsWith(q, p) && !StartsWith(p, q)
  {
    if |q| <= |p| {
      assert p[..|q|][k] == p[k];
    }
    if |p| <= |q| {
      assert q[..|p|][k] == q[k];
    }
  }

  /** Two prefixes of one string: the shorter is a prefix of the longer. */
  lemma PrefixesNest(pathname: string, p: string, q: string)
    ensures StartsWith(pathname, p) && StartsWith(pathname, q) ==> StartsWith(q, p) || StartsWith(p, q)
  {
    if StartsWith(pathname, p) && StartsWith(pathname, q) {
      if |p| <= |q| {
        assert q[..|p|] == pathname[..|q|][..|p|];
      } else {
        assert p[..|q|] == pathname[..|p|][..|q|];
      }
    }
  }

  /** The seven paths are pairwise distinct, and no path other than the
      root's is a prefix of another path. */
  lemma PathsDistinctAndPrefixFree()
    ensures forall i, j :: 0 <= i < j < |NavItems| ==> NavItems[i].path != NavItems[j].path
    ensures forall i, j :: 1 <= i < |NavItems| && 0 <= j < |NavItems| && i != j ==> !StartsWith(NavItems[j].path, NavItems[i].path)
  {
    forall i, j | 1 <= i < |NavItems| && 0 <= j < |NavItems| && i != j
      ensures !StartsWith(NavItems[j].path, NavItems[i].path)
    {
      var p, q := NavItems[i].path, NavItems[j].path;
      if j == 0 {
        assert |p| > |q|;
      } else {
        DifferAt(p, q, 1);
      }
    }
  }

  /** At most one link is highlighted, whatever the pathname. */
  lemma AtMostOneActive(pathname: string)
    ensures forall i, j :: 0 <= i < j < |NavItems| && IsActive(pathname, NavItems[i].path) ==> !IsActive(pathname, NavItems[j].path)
  {
    PathsDistinctAndPrefixFree();
    forall i, j | 0 <= i < j < |NavItems| && IsActive(pathname, NavItems[i].path)
      ensures !IsActive(pathname, NavItems[j].path)
    {
      var p, q := NavItems[i].path, NavItems[j].path;
      if i == 0 {
        assert |q| > 1;
      } else {
        PrefixesNest(pathname, p, q);
      }
    }
  }

  /** On the root only the Dashboard link is highlighted. */
  lemma RootActivatesOnlyDashboard()
    ensures IsActive("/", NavItems[0].path) && NavItems[0].caption == "Dashboard"
    ensures forall i :: 1 <= i < |NavItems| ==> !IsActive("/", NavItems[i].path)
  {
    forall i | 1 <= i < |NavItems| ensures !IsActive("/", NavItems[i].path) {
      assert |NavItems[i].path| > 1;
    }
  }

  /** The mobile menu. */
  class NavMenu {
    var isOpen: bool

    constructor ()
      ensures !isOpen
    {
      isOpen := false;
    }

    /** The menu button flips the flag. */
    method Toggle()
      modifies this
      ensures isOpen == !old(isOpen)
    {
      isOpen := !isOpen;
    }

    /** Following a mobile link closes the menu. */
    method FollowLink()
      modifies this
      ensures !isOpen
    {
      isOpen := false;
    }
  }
}
