# Settings layout shell — Dafny model

A model of the interaction logic of Authelia's settings layout
(`web/src/layouts/SettingsLayout.tsx`): the navigation shell of the settings
area, made of a top bar and a swipeable side drawer that lists destinations.

The model covers:

- **Title synthesis** (`TitleSync`): the document title built from the optional
  `title` and `titlePrefix` props, tested by JavaScript truthiness (an empty
  string counts as absent), with `translate("Settings")` as fallback heading and
  the literal brand `Authelia`. The translation function is a `string -> string`
  parameter. A reference description (the present parts joined by `" - "`) is
  proved equal to the source's four-way case split, and the heading is shown to
  be recoverable from the title.
- **Drawer controller** (`DrawerControl`): the closed/open state, initially
  closed, and `handleToggleDrawer`, which ignores a native `KeyboardEvent` of type
  `keydown` whose key is `Tab` or `Shift` and flips the state otherwise. Over any
  sequence of events the state is flipped once per non-filtered event.
- **Active item** (`ActiveItem`): an entry is selected when the current location
  equals its path or its path followed by one `/`, and nothing else.
- **Navigation catalog** (`NavCatalog`): the three entries `overview`,
  `twofactor`, `close` built from the route constants (parameters here), and the
  rendering of one row per entry in catalog order with its label, icon and
  selected flag.
- **Shell wiring** (`SettingsShell`): the drawer width default (240, any supplied
  number kept, 0 included); a row click, which navigates to the row's path unless
  the row is selected and then bubbles to the drawer body whose handler is the
  drawer toggle; and a session of gestures (menu button, the drawer's open and
  close requests, clicks in the drawer body, row clicks), whose navigations are
  exactly the paths of the clicks on unselected rows, in order.

The current location is an input to each gesture, navigation is an emitted
output, and the route constant values are parameters (`Routes`).

The trailing slash belongs to the *location* (line 154): a location `p` selects
the entry whose path is `p`, but not the entry whose path is `p + "/"`.

At most one catalog row is highlighted only when the route values are
*separated*: the two-factor sub-route is neither empty nor `/`, and the index
route is neither equal to nor one trailing `/` away from either settings path.
The shipped values `/`, `/settings` and `/two-factor-authentication` are
separated; with a sub-route of `/`, one location highlights two rows.

## Model

| member | source | states |
|---|---|---|
| TitleSync.SynthesizeTitle | web/src/layouts/SettingsLayout.tsx:39-53 | the title always ends with " - Authelia", and starts with the prefix followed by " - " whenever the prefix is non-empty |
| TitleSync.TitleIsJoinedParts | web/src/layouts/SettingsLayout.tsx:39-53 | the title equals the present parts (prefix if non-empty, title or translated "Settings", "Authelia") joined by " - ", covering all four branches |
| TitleSync.TitleCases | web/src/layouts/SettingsLayout.tsx:40-51 | the four case equations: prefix - title - Authelia, title - Authelia, prefix - translate("Settings") - Authelia, translate("Settings") - Authelia |
| TitleSync.HeadingRecoverable | web/src/layouts/SettingsLayout.tsx:40-51 | removing the prefix part and the brand tail from the title leaves exactly the title, or the translated fallback when the title is falsy |
| TitleSync.EmptyIsAbsent | web/src/layouts/SettingsLayout.tsx:40-47 | an empty title or prefix gives the same document title as an undefined one (truthiness) |
| TitleSync.TranslateOnlyForFallback | web/src/layouts/SettingsLayout.tsx:40-51 | the translation function affects the title only through translate("Settings"), and not at all when the title is non-empty |
| DrawerControl.IsFocusNavigationKey | web/src/layouts/SettingsLayout.tsx:58-61 | only keyboard events are filtered, and never one whose type is not keydown |
| DrawerControl.Toggle | web/src/layouts/SettingsLayout.tsx:57-67 | the state is unchanged if and only if the event is a keydown of Tab or Shift; otherwise it is flipped |
| DrawerControl.FilterIsExact | web/src/layouts/SettingsLayout.tsx:58-64 | among keyboard events, exactly a keydown of Tab or Shift is ignored; a keyup of them or a keydown of another key toggles |
| DrawerControl.DoubleToggleRestores | web/src/layouts/SettingsLayout.tsx:66 | two consecutive non-filtered toggles restore the original state |
| DrawerControl.Replay | web/src/layouts/SettingsLayout.tsx:57-67 | handling a sequence made only of Tab/Shift keydowns leaves the drawer state unchanged |
| DrawerControl.ReplayParity | web/src/layouts/SettingsLayout.tsx:57-67 | after a sequence of events the state is the start state flipped once per non-filtered event (parity of their count) |
| DrawerControl.HandleEvents | web/src/layouts/SettingsLayout.tsx:57-67 | handling events one by one yields the start state flipped once per non-filtered event |
| DrawerControl.OpenReachable | web/src/layouts/SettingsLayout.tsx:37 | the drawer starts closed, one mouse event opens it and a second closes it again |
| ActiveItem.IsSelected | web/src/layouts/SettingsLayout.tsx:154 | a selecting location starts with the entry's path and is as long as it or one character longer |
| ActiveItem.SelectsOwnPath | web/src/layouts/SettingsLayout.tsx:154 | a location equal to the path, or to the path plus "/", selects the entry |
| ActiveItem.SlashedPathNotSelected | web/src/layouts/SettingsLayout.tsx:154 | a location p never selects the entry whose path is p + "/": the slash is only tolerated on the location |
| ActiveItem.SelectedIffPrefixAndRest | web/src/layouts/SettingsLayout.tsx:154 | selected if and only if the location starts with the path and the rest is empty or a single "/" (no other normalisation) |
| ActiveItem.SelectedPathsRelated | web/src/layouts/SettingsLayout.tsx:154 | one location selects two paths only if they are equal or differ by one trailing "/" |
| NavCatalog.NavItems | web/src/layouts/SettingsLayout.tsx:142-151 | three entries, each with a key and an icon, targeting the settings route, settings plus two-factor sub-route, and the index route, in that order |
| NavCatalog.CatalogKeys | web/src/layouts/SettingsLayout.tsx:142-151 | the keys are overview, twofactor, close in that order, and are pairwise distinct |
| NavCatalog.RowFor | web/src/layouts/SettingsLayout.tsx:165-172 | a row is highlighted exactly when its entry is selected at the location |
| NavCatalog.RenderRows | web/src/layouts/SettingsLayout.tsx:77-81 | one row per entry in catalog order, each with the entry's label and icon presence, highlighted exactly when selected |
| NavCatalog.AtMostOneSelected | web/src/layouts/SettingsLayout.tsx:154 | when no two entry paths are equal or differ by a trailing "/", no location selects two entries |
| NavCatalog.CatalogPathsUnrelated | web/src/layouts/SettingsLayout.tsx:142-154 | with separated route values the catalog's paths are pairwise unrelated, so no location highlights two catalog rows |
| NavCatalog.ShippedRoutesSeparated | web/src/layouts/SettingsLayout.tsx:143-150 | the route values "/", "/settings", "/two-factor-authentication" are separated |
| NavCatalog.OverlappingRoutesSelectTwo | web/src/layouts/SettingsLayout.tsx:147-154 | with the two-factor sub-route "/", the location "/a/" highlights both the overview and the two-factor rows |
| SettingsShell.DrawerWidth | web/src/layouts/SettingsLayout.tsx:55 | a supplied width (0 included) is kept; the width is 240 exactly when none is supplied or 240 is supplied |
| SettingsShell.ClickRow | web/src/layouts/SettingsLayout.tsx:157-163 | a row click navigates if and only if the row is not selected, only to the row's path, and passes the click to the drawer toggle |
| SettingsShell.ClickClosesAndNavigates | web/src/layouts/SettingsLayout.tsx:72 | a mouse click on a row of the open drawer closes it, navigating to the row's path exactly when the row was not selected |
| SettingsShell.Handle | web/src/layouts/SettingsLayout.tsx:85-123 | every gesture goes through the drawer toggle; a click on an unselected row navigates to that row's path, and no other gesture navigates |
| SettingsShell.Run | web/src/layouts/SettingsLayout.tsx:72-123 | over a session every navigation targets a catalog path, with at most one navigation per gesture |
| SettingsShell.SessionInvariant | web/src/layouts/SettingsLayout.tsx:72-123 | over a session the drawer ends flipped once per non-filtered event, and the navigations are exactly the paths of the clicks on unselected rows, in order |
| SettingsShell.MountsClosed | web/src/layouts/SettingsLayout.tsx:37 | the shell mounts with the drawer closed and no navigation |

## Left out

- JSX and MUI rendering (AppBar, SwipeableDrawer, List, icons, `sx` styles) and the responsive rule hiding the bar title on narrow screens while the drawer is open (line 101): presentation only.
- The assignment to `document.title` (lines 42-50), the read of `window.location.pathname` (line 154) and the drawer container `window.document.body` (line 69): browser side effects; the title is a returned string and the location an input.
- `useTranslation`: a foreign i18n library; `translate` is a function parameter.
- `useRouterNavigate` and the values of the route constants from `@constants/Routes`: not part of this model; paths are opaque strings, navigation is an emitted output, and the routes are a parameter.
- React scheduling: `useEffect` re-running only when `title`, `titlePrefix` or `translate` change, and `useCallback` memoisation.
- When SwipeableDrawer calls `onOpen` / `onClose` (swipe and backdrop detection) is the widget's own logic; those calls are gestures given as inputs.
- The `id` and `children` props: `children` is rendered in the content area without any logic.
- The commented-out `SettingsMenu` component (lines 175-232): dead code.
- SettingsShell.DrawerWidth: the width is an integer, so a JavaScript number that is fractional or NaN is not modelled.
- SettingsShell.Handle: the order of navigation and drawer dismissal within one row click is not modelled; the two effects are returned together.
