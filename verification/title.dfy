/**
  Document-title synthesis of the settings layout: a four-way case split over the
  optional page title and title prefix, with a translated fallback heading and the
  fixed brand suffix.
*/
module TitleSync {
  import opened Optional

  /** Brand name appended to every settings page title. */
  const Brand: string := "Authelia"

  /** Separator placed between the parts of the title. */
  const Separator: string := " - "

  /** Translation key of the fallback heading. */
  const FallbackKey: string := "Settings"

  /** The tail that ends every synthesized title. */
  const BrandTail: string := Separator + Brand

  predicate EndsWith(s: string, suffix: string)
  {
    |suffix| <= |s| && s[|s| - |suffix|..] == suffix
  }

  predicate StartsWith(s: string, prefix: string)
  {
    |prefix| <= |s| && s[..|prefix|] == prefix
  }

  /** The heading shown for the page: the title when truthy, otherwise the translated fallback. */
  function Heading(title: Option<string>, translate: string -> string): string
  {
    if Truthy(title) then title.value else translate(FallbackKey)
  }

  /**
    The document title, following SettingsLayout's title effect: a nested `if` on `title` and then
    `titlePrefix`, each tested by JavaScript truthiness.
  */
  function SynthesizeTitle(title: Option<string>, titlePrefix: Option<string>,
                           translate: string -> string): (r: string)
    ensures EndsWith(r, BrandTail)
    ensures Truthy(titlePrefix) ==> StartsWith(r, titlePrefix.value + Separator)
  {
    if Truthy(title) then
      if Truthy(titlePrefix) then
        titlePrefix.value + " - " + title.value + " - Authelia"
      else
        title.value + " - Authelia"
    else
      if Truthy(titlePrefix) then
        titlePrefix.value + " - " + translate("Settings") + " - Authelia"
      else
        translate("Settings") + " - Authelia"
  }

  /** Joins non-empty list of parts with `sep` between consecutive parts. */
  function Join(parts: seq<string>, sep: string): (r: string)
    requires |parts| > 0
    decreases |parts|
  {
    if |parts| == 1 then parts[0] else parts[0] + sep + Join(parts[1..], sep)
  }

  /** The parts of the title: the prefix when present, the heading, then the brand. */
  function Parts(title: Option<string>, titlePrefix: Option<string>,
                 translate: string -> string): (ps: seq<string>)
  {
    (if Truthy(titlePrefix) then [titlePrefix.value] else []) + [Heading(title, translate), Brand]
  }

  /**
    Reference description of the title: the present parts joined by " - ". This
    gives all four cases of SettingsLayout's title effect at once.
  */
  lemma {:induction false} TitleIsJoinedParts(title: Option<string>, titlePrefix: Option<string>,
                                              translate: string -> string)
    ensures SynthesizeTitle(title, titlePrefix, translate) == Join(Parts(title, titlePrefix, translate), Separator)
  {
    var h := Heading(title, translate);
    assert Join([Brand], Separator) == Brand;
    assert [h, Brand][1..] == [Brand];
    assert Join([h, Brand], Separator) == h + Separator + Brand;
    if Truthy(titlePrefix) {
      var p := titlePrefix.value;
      assert [p] + [h, Brand] == [p, h, Brand];
      assert [p, h, Brand][1..] == [h, Brand];
      assert Join([p, h, Brand], Separator) == p + Separator + (h + Separator + Brand);
    } else {
      assert [] + [h, Brand] == [h, Brand];
    }
  }

  /** The four cases, stated as equations over the heading pieces. */
  lemma TitleCases(title: Option<string>, titlePrefix: Option<string>, translate: string -> string)
    ensures Truthy(title) && Truthy(titlePrefix) ==>
      SynthesizeTitle(title, titlePrefix, translate) == titlePrefix.value + Separator + title.value + BrandTail
    ensures Truthy(title) && !Truthy(titlePrefix) ==>
      SynthesizeTitle(title, titlePrefix, translate) == title.value + BrandTail
    ensures !Truthy(title) && Truthy(titlePrefix) ==>
      SynthesizeTitle(title, titlePrefix, translate) == titlePrefix.value + Separator + translate(FallbackKey) + BrandTail
    ensures !Truthy(title) && !Truthy(titlePrefix) ==>
      SynthesizeTitle(title, titlePrefix, translate) == translate(FallbackKey) + BrandTail
  {
  }

  /**
    The heading can be read back out of the title: dropping the prefix part (when
    present) and the brand tail leaves exactly the heading.
  */
  lemma HeadingRecoverable(title: Option<string>, titlePrefix: Option<string>, translate: string -> string)
    ensures var r := SynthesizeTitle(title, titlePrefix, translate);
            var lead := if Truthy(titlePrefix) then |titlePrefix.value + Separator| else 0;
            lead + |BrandTail| <= |r| &&
            r[lead..|r| - |BrandTail|] == Heading(title, translate)
  {
  }

  /** An empty string behaves exactly like `undefined`, for both inputs. */
  lemma EmptyIsAbsent(title: Option<string>, titlePrefix: Option<string>, translate: string -> string)
    ensures SynthesizeTitle(Some(""), titlePrefix, translate) == SynthesizeTitle(None, titlePrefix, translate)
    ensures SynthesizeTitle(title, Some(""), translate) == SynthesizeTitle(title, None, translate)
  {
  }

  /** The translation is consulted only when the title is falsy. */
  lemma TranslateOnlyForFallback(title: Option<string>, titlePrefix: Option<string>,
                                 t1: string -> string, t2: string -> string)
    requires Truthy(title) || t1(FallbackKey) == t2(FallbackKey)
    ensures SynthesizeTitle(title, titlePrefix, t1) == SynthesizeTitle(title, titlePrefix, t2)
  {
  }
}
