/**
  The static navigation catalog of the settings drawer and the rows rendered
  from it.
*/
module NavCatalog {
  import opened Optional
  import opened ActiveItem

  datatype Icon = DashboardIcon | SecurityUpdateGoodIcon | CloseIcon

  /** One destination of the drawer: optional React key, label, target path, optional icon. */
  datatype NavItem = NavItem(keyname: Option<string>, text: string, pathname: string, icon: Option<Icon>)

  /** The route constants the catalog is built from; their values are configuration. */
  datatype Routes = Routes(index: string, settings: string, twoFactorSub: string)

  /** The catalog in display order: overview, two-factor authentication, close. */
  function NavItems(r: Routes): (items: seq<NavItem>)
    ensures |items| == 3
    ensures forall i :: 0 <= i < |items| ==> items[i].keyname.Some? && items[i].icon.Some?
    ensures items[0].pathname == r.settings
    ensures items[1].pathname == r.settings + r.twoFactorSub
    ensures items[2].pathname == r.index
  {
    [ NavItem(Some("overview"), "Overview", r.settings, Some(DashboardIcon)),
      NavItem(Some("twofactor"), "Two-Factor Authentication", r.settings + r.twoFactorSub, Some(SecurityUpdateGoodIcon)),
      NavItem(Some("close"), "Close", r.index, Some(CloseIcon)) ]
  }

  /** Every entry carries a key and no two entries share one. */
  predicate KeysDistinct(items: seq<NavItem>)
  {
    (forall i :: 0 <= i < |items| ==> items[i].keyname.Some?) &&
    forall i, j :: 0 <= i < j < |items| ==> items[i].keyname != items[j].keyname
  }

  /** The catalog's keys are `overview`, `twofactor` and `close`, in that order, so they are distinct. */
  lemma CatalogKeys(r: Routes)
    ensures [NavItems(r)[0].keyname, NavItems(r)[1].keyname, NavItems(r)[2].keyname] ==
            [Some("overview"), Some("twofactor"), Some("close")]
    ensures KeysDistinct(NavItems(r))
  {
  }

  /** What one drawer row shows: the label, the icon if any, and whether it is highlighted. */
  datatype Row = Row(text: string, icon: Option<Icon>, selected: bool)

  /** The row for one entry at the given location. */
  function RowFor(item: NavItem, location: string): (row: Row)
    ensures row.selected <==> IsSelected(location, item.pathname)
  {
    Row(item.text, item.icon, IsSelected(location, item.pathname))
  }

  /** Renders one row per entry, in catalog order. */
  method RenderRows(items: seq<NavItem>, location: string) returns (rows: seq<Row>)
    ensures |rows| == |items|
    ensures forall i :: 0 <= i < |items| ==>
              rows[i].text == items[i].text && rows[i].icon == items[i].icon &&
              (rows[i].selected <==> IsSelected(location, items[i].pathname))
  {
    rows := [];
    var i := 0;
    while i < |items|
      invariant 0 <= i <= |items|
      invariant |rows| == i
      invariant forall k :: 0 <= k < i ==> rows[k] == RowFor(items[k], location)
    {
      rows := rows + [RowFor(items[i], location)];
      i := i + 1;
    }
  }

  /** No two entries' paths are equal or differ by a single trailing "/". */
  predicate PathsUnrelated(items: seq<NavItem>)
  {
    forall i, j :: 0 <= i < j < |items| ==>
      var p, q := items[i].pathname, items[j].pathname;
      p != q && p != q + "/" && q != p + "/"
  }

  /** When the entries' paths are unrelated, at most one entry is selected at any location. */
  lemma AtMostOneSelected(items: seq<NavItem>, location: string)
    requires PathsUnrelated(items)
    ensures forall i, j :: 0 <= i < j < |items| ==>
              !(IsSelected(location, items[i].pathname) && IsSelected(location, items[j].pathname))
  {
    forall i, j | 0 <= i < j < |items|
      ensures !(IsSelected(location, items[i].pathname) && IsSelected(location, items[j].pathname))
    {
      if IsSelected(location, items[i].pathname) && IsSelected(location, items[j].pathname) {
        SelectedPathsRelated(location, items[i].pathname, items[j].pathname);
      }
    }
  }

  /** Two paths are equal or differ by a single trailing "/", so one location can select both. */
  predicate Related(p: string, q: string)
  {
    p == q || p == q + "/" || q == p + "/"
  }

  /**
    Route values under which the catalog's paths are pairwise unrelated: the
    two-factor sub-route is neither empty nor "/", and the index route is not
    related to either settings path.
  */
  predicate RoutesSeparated(r: Routes)
  {
    r.twoFactorSub != "" && r.twoFactorSub != "/" &&
    !Related(r.index, r.settings) && !Related(r.index, r.settings + r.twoFactorSub)
  }

  /** With separated routes, no location selects two catalog entries. */
  lemma CatalogPathsUnrelated(r: Routes, location: string)
    requires RoutesSeparated(r)
    ensures PathsUnrelated(NavItems(r))
    ensures forall i, j :: 0 <= i < j < 3 ==>
              !(IsSelected(location, NavItems(r)[i].pathname) && IsSelected(location, NavItems(r)[j].pathname))
  {
    var s, t := r.settings, r.settings + r.twoFactorSub;
    assert s != t by { assert |s| < |t|; }
    assert t + "/" != s by { assert |s| < |t + "/"|; }
    assert s + "/" != t by {
      assert t[|s|..] == r.twoFactorSub;
      assert (s + "/")[|s|..] == "/";
    }
    AtMostOneSelected(NavItems(r), location);
  }

  /** The route values Authelia ships are separated. */
  lemma ShippedRoutesSeparated()
    ensures RoutesSeparated(Routes("/", "/settings", "/two-factor-authentication"))
  {
    assert "/" + "/" != "/settings" by { assert |"/" + "/"| != |"/settings"|; }
  }

  /**
    Without separation the catalog can highlight two rows: with the two-factor
    sub-route "/", the location "/a/" selects both the overview and the
    two-factor entry.
  */
  lemma OverlappingRoutesSelectTwo()
    ensures var items := NavItems(Routes("/", "/a", "/"));
            IsSelected("/a/", items[0].pathname) && IsSelected("/a/", items[1].pathname)
  {
    assert "/a" + "/" == "/a/";
  }
}
