/**
  Active-item resolution: a navigation entry is selected when the current
  location is its path, or its path with one trailing "/".
*/
module ActiveItem {

  function IsSelected(location: string, pathname: string): (b: bool)
    ensures b ==> |location| == |pathname| || |location| == |pathname| + 1
    ensures b ==> location[..|pathname|] == pathname
  {
    location == pathname || location == pathname + "/"
  }

  /** Every path selects its own entry, with or without a trailing slash. */
  lemma SelectsOwnPath(p: string)
    ensures IsSelected(p, p)
    ensures IsSelected(p + "/", p)
  {
  }

  /**
    Independent description of selection: the location starts with the entry's
    path and what is left over is nothing or a single "/".
  */
  lemma SelectedIffPrefixAndRest(location: string, pathname: string)
    ensures IsSelected(location, pathname) <==>
            |pathname| <= |location| && location[..|pathname|] == pathname &&
            (location[|pathname|..] == "" || location[|pathname|..] == "/")
  {
  }

  /**
    The trailing "/" belongs to the location, not to the entry's path: a location
    never selects the entry whose path is that location followed by "/".
  */
  lemma SlashedPathNotSelected(p: string)
    ensures !IsSelected(p, p + "/")
  {
    assert |p| < |p + "/"|;
  }

  /**
    One location selects two paths only when the paths are equal or differ by a
    single trailing "/".
  */
  lemma {:induction false} SelectedPathsRelated(location: string, p: string, q: string)
    requires IsSelected(location, p) && IsSelected(location, q)
    ensures p == q || p == q + "/" || q == p + "/"
  {
    if location == p + "/" && location == q + "/" {
      assert p == location[..|location| - 1] == q;
    }
  }
}
