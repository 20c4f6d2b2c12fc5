# Page navigation engine of the workout guide

This project models the client-side navigation engine of a single-page
workout guide (`script.js`). The page holds a set of page elements, one per
screen of the guide.
- **Catalogue.** A constant catalogue maps each day page to its ordered list
  of exercise pages.
- **History.** The engine keeps a history stack of visited pages.
- **Theme.** It keeps a dark/light theme with registries of moon and sun
  icons.
- **Navigation.** `navigateTo` moves forward, and the back button calls
  `navigateBack`. On detail pages, a detail-nav bar with previous/next
  buttons steps between the exercises of one day, replacing the current
  history entry.

The model is organised as the script is:

- `Strings`: JavaScript's `split` on a one-character separator, and the
  decimal text of a button index. They are proved to round-trip
  (`JoinSplit`) and to be injective and well formed.
- `Catalogue`: the day map, `getParentDayId` (`ParentDayId`), the lookup key
  `dayExerciseMap[parentId]` (`DayKey`, where a missing day becomes the key
  "null"), `indexOf`, `list[i] || null` (`Entry`), both forms of
  `getNavExercise` (`GetNeighbours`, `GetLink`) and the detail-page test of
  `addDetailNav` (`IsDetailPage`).
- `ShippedCatalogue`: facts about the shipped catalogue.
- `Theme`: the startup theme choice, the stored text and the icon registries,
  with the `forEach` loops that keep them in step.
- `Pages`: one page element as a record:
  - its `page-active` and `page-previous` classes;
  - header, title slot and title;
  - the number of detail-nav bars and the buttons of the first bar;
  - its scroll offset.

  The module also holds `addDetailNav` on one page (`WithDetailNav`), the
  state a back move leaves a page in (`Leave`), and the two document-wide
  `forEach` loops of `navigateTo`.
- `Transitions`: what one `navigateTo` (`NextHistory`, `EnteredPages`) and
  one `navigateBack` (`BackHistory`, `BackPages`) do to the history and the
  pages, written as functions of the state before. It also holds the
  invariants the engine keeps, and the round trip of a forward move
  followed by a back move.
- `Navigation`: the class `Navigator`. Its fields are the history, the page
  elements, the theme flag, the stored theme and the two icon registries.
  Its methods are the script's handlers. Each method that changes state is
  proved to produce exactly the state that `Transitions` describes.

## Model

| member | source | states |
|---|---|---|
| Strings.Split | script.js:27 | `split` always returns at least one component, even for the empty string |
| Strings.JoinSplit | script.js:27 | splitting loses nothing: the components joined with the separator give back the id |
| Strings.SplitPartsAreFree | script.js:27 | no component of a split contains the separator |
| Strings.SplitWithoutSep | script.js:27-29 | an id without a dash is a single component |
| Strings.SplitAtFirst | script.js:27-28 | the first component is the text before the first dash, and the rest is split on its own |
| Strings.SplitHasTwoParts | script.js:27-29 | there are at least two components exactly when the id contains a dash |
| Strings.NatToString | script.js:70 | the text of an index is a non-empty string of decimal digits, one digit exactly below ten |
| Strings.NatToStringInjective | script.js:70-71 | different indexes have different texts |
| Catalogue.Numbered | script.js:10-23 | a numbered list of n entries has exactly n entries |
| Catalogue.ParentDayId | script.js:26-30 | an id derives a day exactly when it contains a dash, and the day always starts with `page-` |
| Catalogue.DayKey | script.js:33-34 | the lookup key is the text "null" exactly when no day is derived, and the derived day otherwise |
| Catalogue.IndexOf | script.js:36 | the result is -1 exactly when the page is absent; otherwise the page stands there and nowhere before |
| Catalogue.Entry | script.js:39-46 | the lookup `list[i]`, falling back to null, yields an entry only for a position inside the list and only when the entry is not empty; in a list without empty entries, every position inside yields its entry |
| Catalogue.GetNeighbours | script.js:32-47 | a previous neighbour exists only for a page listed in its own day, a next neighbour only when the day exists, and either neighbour is taken from that day's list |
| Catalogue.TitleOf | script.js:40-44 | a title is found exactly when the target, or the text "null" for no target, has a declared title, and it is one of the declared titles |
| Catalogue.GetLink | script.js:32-45 | a page whose day is missing gets no id and no title; otherwise the title is the declared title of the id found, and any id found comes from the day's list |
| Catalogue.IsDetailPage | script.js:83-84 | a page is a detail page exactly when it derives a day which is in the catalogue and whose list contains the page |
| Catalogue.ParentDayIdOf | script.js:26-30 | `a-d` and `a-d-...` derive `page-d`, whatever `a` is |
| Catalogue.IndexOfFirst | script.js:36 | an entry that does not occur earlier is found at its own position |
| Catalogue.NeighboursAt | script.js:32-47 | the neighbours of the exercise at position i are the entries at i-1 and i+1, and nothing past either end |
| Catalogue.NoDayNoNeighbours | script.js:33-35 | a page whose day is not in the catalogue has no neighbours, gets no link in either direction with any titles, and is not a detail page |
| Catalogue.LinkAgreesWithNeighbours | script.js:38-46 | in both directions the directional lookup finds the same neighbour as the undirected one, with that neighbour's declared title, or the title declared for "null" when there is none |
| Catalogue.DetailPageIffListed | script.js:83-84 | `a-d...` is a detail page exactly when `page-d` is a day whose list contains it |
| Catalogue.DetailPageIsIndexed | script.js:84 | a detail page is always found in its own day's list |
| Catalogue.UnlistedPageSeesFirstAsNext | script.js:36-46 | a page that derives a listed day but is not listed gets index -1: no previous, the day's first exercise as next, and it is not a detail page |
| Catalogue.NumberedEntry | script.js:11-22 | entry i of a numbered list derives the list's own day, is not empty and does not occur earlier in the list |
| Catalogue.NumberedNeighbours | script.js:32-47 | in a day whose list is a numbered list, entry i is a detail page whose neighbours are entries i-1 and i+1, and nothing past either end |
| ShippedCatalogue.ListsAsWritten | script.js:10-23 | the Monday list is `page-monday-ex1` to `page-monday-ex20`, Tuesday and Wednesday have three exercises each, Thursday, Friday and Saturday one each, and the tips are `page-tip-1` to `page-tip-3` |
| ShippedCatalogue.ShippedExerciseNeighbours | script.js:11-21 | every exercise of the six day lists is a detail page whose bar links the entries just before and after it in its own list |
| ShippedCatalogue.TipPagesAreNotDetailPages | script.js:22 | every tip listed under `page-protips` derives `page-tip`, is not a detail page and has no neighbours |
| Theme.BoolText | script.js:64 | the stored text is "true" exactly for the dark theme |
| Theme.InitialDark | script.js:74-79 | a saved value selects dark exactly when it is "true"; the system preference counts only when nothing is saved |
| Theme.ButtonKey | script.js:70 | the key of a startup button is `btn-` followed by the decimal text of its position |
| Theme.HeaderKey | script.js:143 | the key of a header button is `btn-` followed by the page id |
| Theme.SetAll | script.js:54-59 | the registry keeps its keys, and every icon ends hidden exactly as asked |
| Theme.ButtonKeyInjective | script.js:70-71 | distinct button positions get distinct registry keys |
| Theme.RegisterButtons | script.js:67-73 | the registry keys are exactly `btn-0` ... `btn-(n-1)`, and each key holds the icons of the button at that position |
| Theme.SavedThemeIsRestored | script.js:64 | the text saved by a toggle makes the next startup choose that theme, whatever the system preference |
| Theme.KeysCollideOnlyOnDigits | script.js:143 | a header key meets a startup key exactly when the page id is the decimal text of the button's position |
| Pages.BarFor | script.js:97-100 | each button is hidden exactly when it goes nowhere, goes to the neighbour the undirected lookup finds, and any neighbour comes from the page's own day |
| Pages.WithDetailNav | script.js:82-119 | only the page's bars change; a detail page ends with at least one bar whose buttons are its neighbours' and gets a bar only when it had none; any other page loses exactly one bar when it has one and is untouched otherwise |
| Pages.Leave | script.js:200-209 | the page left loses both animation classes and exactly one bar when it has one, and nothing else |
| Pages.ClearPrevious | script.js:173 | every page loses `page-previous` and nothing else changes |
| Pages.RemoveNavBarsExcept | script.js:158-160 | every page except the kept one ends with no bar and is otherwise unchanged; the kept page is untouched |
| Pages.WithDetailNavIdempotent | script.js:82-118 | running `addDetailNav` again changes nothing more |
| Pages.BarButtonsMatchLinks | script.js:97-115 | the handlers go where the directional lookup points |
| Pages.BarAtPosition | script.js:97-100 | at position i of a day, the previous button is hidden exactly at the first position and the next button exactly at the last; otherwise they go to i-1 and i+1 |
| Transitions.NextHistory | script.js:163-169 | the target ends on top; below it is the old history or the old history without its top; a push never loses an entry |
| Transitions.BackHistory | script.js:192-194 | the history loses exactly its top entry |
| Transitions.Decorated | script.js:131-155 | the page gets a header, bringing a title slot when it had no header, and only header, slot and title change; with a slot it shows the given title, without one it keeps its old title |
| Transitions.EnteredPages | script.js:124-189 | no page is added or lost; the target is active, not parked, has a header and sits at the top; every other page ends without a bar and keeps its header |
| Transitions.BackPages | script.js:191-216 | no page is added or lost; the page left is inactive and unparked, the page returned to is active and unparked, and no other page changes |
| Transitions.ParkedPointwise | script.js:173-188 | a page map that agrees page by page with the class stage is the class stage |
| Transitions.ReplaceSwapsTop | script.js:164-166 | replace mode keeps the history length, changes only the top, and puts the target there, even when only the root is left |
| Transitions.PushAppendsNewTop | script.js:167-169 | push mode appends the target exactly when it is not already the current page |
| Transitions.PushThenBackRestoresHistory | script.js:192-197 | a push to another page followed by a back move gives the old history back |
| Transitions.EnteredTarget | script.js:131-188 | the entered page is active, not parked, has a header and sits at the top; its bars are what `addDetailNav` leaves; with a title slot it shows the given title |
| Transitions.EnteredOthers | script.js:158-182 | only the page left is parked, and only on a forward move to another page; that page is deactivated; no page but the target keeps a bar |
| Transitions.EnteredPagesInStages | script.js:131-188 | the decoration, nav-bar and class stages together give the whole effect of `navigateTo` on the pages |
| Transitions.EnterKeepsActiveIsTop | script.js:175-187 | if exactly the current page was active, the same holds after `navigateTo` |
| Transitions.EnterKeepsBarsOnTop | script.js:158-161 | after `navigateTo` only the current page holds a bar, and at most one |
| Transitions.EnterKeepsInvariants | script.js:124-189 | `navigateTo` keeps both of the invariants above |
| Transitions.BackEffects | script.js:191-216 | a back move deactivates and unparks the page left and takes its bar; it reactivates the page returned to and rebuilds that page's bar; no other page changes |
| Transitions.BackKeepsInvariants | script.js:191-216 | `navigateBack` keeps "exactly the current page is active" and "only the current page holds a bar, at most one" |
| Transitions.ForwardThenBack | script.js:124-216 | a forward push followed by a back move restores the history and makes the old page active and unparked again, with a freshly rebuilt bar and otherwise unchanged |
| Navigation.Navigator.Start | script.js:67-79 | startup registers every theme button, picks the theme from the saved value or the system preference, and leaves every icon consistent with it |
| Navigation.Navigator.SetDarkMode | script.js:51-61 | the theme flag and every registered icon follow the argument; the registries keep their keys |
| Navigation.Navigator.ToggleDarkMode | script.js:62-66 | the theme flips, its text is stored, and the icons follow |
| Navigation.Navigator.InjectHeader | script.js:132-151 | a page without a header gets one, and its theme button is registered with icons matching the current theme; a page with a header is left alone |
| Navigation.Navigator.AddDetailNav | script.js:82-119 | the page's bar is reconciled as `WithDetailNav` says, with buttons hidden exactly where the neighbour is missing |
| Navigation.Navigator.NavigateTo | script.js:124-189 | a missing page changes nothing; otherwise the new history and pages are `NextHistory` and `EnteredPages`, the header button is registered, and the invariants hold on |
| Navigation.Navigator.Enter | script.js:128-189 | the stages of `navigateTo` for a page that exists give `NextHistory` and `EnteredPages` and keep the invariants |
| Navigation.Navigator.DecorateTarget | script.js:131-155 | the header is injected and the title written into the title slot, giving `Decorated` |
| Navigation.Navigator.WriteTitle | script.js:154-155 | the title changes only on a page with a title slot, and nothing else changes |
| Navigation.Navigator.ReconcileBars | script.js:157-161 | the pages become `Reconciled`: foreign bars are removed and the target's bar is reconciled |
| Navigation.Navigator.RecordVisit | script.js:163-169 | the history becomes `NextHistory` and nothing else changes |
| Navigation.Navigator.ParkPages | script.js:173-188 | the pages become `Parked` and nothing else changes |
| Navigation.Navigator.NavigateBack | script.js:191-217 | with one entry nothing changes; otherwise the result is `BackHistory` and `BackPages`, and the invariants hold on |
| Navigation.Navigator.Retreat | script.js:194-216 | the steps of a back move with more than one entry give `BackHistory` and `BackPages` and keep the invariants |
| Navigation.Navigator.LeavePage | script.js:200-209 | the popped page becomes `Leave` of itself, when it exists, and nothing else changes |
| Navigation.Navigator.ReturnTo | script.js:210-216 | the page returned to, when it exists, is activated, unparked and given its `addDetailNav` bar, and nothing else changes |
| Navigation.Navigator.OpenTile | script.js:220-227 | a tile click is a forward push: a missing target changes nothing; otherwise the history and pages are `NextHistory` and `EnteredPages`, a page other than the current one is appended, the page left is parked and deactivated, the header button is registered, the theme and stored value are unchanged, and the invariants hold on |
| Navigation.Navigator.ClickPrev | script.js:103-108 | a previous button that goes nowhere, or to a missing page, changes nothing; otherwise the current entry is replaced by the target, which becomes active with the directional title, no page is parked, the header button is registered, the theme and stored value are unchanged, and the invariants hold on |
| Navigation.Navigator.ClickNext | script.js:110-115 | a next button that goes nowhere, or to a missing page, changes nothing; otherwise the current entry is replaced by the target, which becomes active with the directional title, only the page left is parked, the header button is registered, the theme and stored value are unchanged, and the invariants hold on |

## Left out

- The HTML of the header and detail-nav templates is not part of this model. The model assumes that an injected header brings a title slot. The icon state written in the header template is a constant parameter (`headerIcons`).
- Navigation.Navigator.InjectHeader: theme consistency is proved only when the header template shows the moon and hides the sun, because the template itself is not part of this model.
- Registering event listeners (the theme buttons, the back button and the tile clicks) is not modelled. The handlers are methods that a caller invokes: `ToggleDarkMode`, `NavigateBack`, `OpenTile`, `ClickPrev` and `ClickNext`. A bar's buttons exist only while the page holds a bar, so `ClickPrev` and `ClickNext` require one.
- `style.transform = ''` is a purely visual reset with no effect on the navigation state, so it is not modelled.
- Local storage and the `prefers-color-scheme` media query are inputs to `Start` (`saved`, `prefersDark`). The stored value is the field `persisted`.
- `document.querySelector('[data-target=...]')?.dataset.title` is a map from a target id to its title (`titles`), so the first element for a target is assumed to be the one queried. A missing title is `None`. Assigning `undefined` to `textContent` empties the title slot, and `title := None` stands for that empty slot.
- A page with several detail-nav bars is modelled by the count of its bars and the buttons of the first one, the bar which `querySelector` returns.
- A bar's click handlers are stored closures. They are modelled as the target each handler stores (`onPrev`, `onNext`). The title is looked up again at click time, as the script does.
- Navigation.Navigator.Valid does not include "exactly the current page is active" or the nav-bar invariants. The initial classes of the page elements come from the HTML, so the navigation methods preserve those invariants instead of assuming them.
- The document contains no swipe or tab gestures; `script.js` handles only these clicks.
- The day lists are written as numbered lists (`Numbered`). `ListsAsWritten` proves that they spell out the ids of `script.js:10-23`.

## Behaviour worth knowing

- Monday lists twenty exercises.
- No reserved "tips" category exists. `page-tip-1` derives `page-tip`, which is not a key of the map, so the tips listed under `page-protips` never get a nav bar (`TipPagesAreNotDetailPages`).
- A page that derives a listed day but is not in its list gets the day's first exercise as its next neighbour from the undirected lookup (`UnlistedPageSeesFirstAsNext`). The script never reaches this case. The undirected lookup runs only under the detail-page guard (`script.js:88`, `script.js:97`), and the directional lookup only from the handlers of a detail page's bar (`script.js:105`, `script.js:112`).
