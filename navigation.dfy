/** The navigation engine: the history stack, the page elements, the theme
    and the icon registries, and the handlers that change them. */
module Navigation {

  import opened Wrappers
  import opened Catalogue
  import opened Theme
  import opened Pages
  import opened Transitions

  class Navigator {

    /** `pageHistory`, oldest entry first. */
    var history: seq<PageId>
    /** The page elements by id, standing in for `document.getElementById`;
        the set of ids never changes. */
    var pages: map<PageId, Page>
    /** Whether the document element carries the `dark` class. */
    var dark: bool
    /** The `darkMode` entry of local storage. */
    var persisted: Option<string>
    /** `iconMoonCache` and `iconSunCache`: key to "icon is hidden". */
    var moon: map<string, bool>
    var sun: map<string, bool>
    /** The day catalogue the engine consults. */
    const cat: Days
    /** The icon state written in the header template. */
    const headerIcons: IconPair
    /** The `data-title` of the element whose `data-target` is the key. */
    const titles: map<PageId, string>

    ghost predicate Valid()
      reads this
    {
      |history| >= 1 && moon.Keys == sun.Keys
    }

    /** The current page: the last history entry. */
    function Top(): PageId
      reads this
      requires Valid()
    {
      history[|history| - 1]
    }

    /** Every registered moon is hidden exactly in the dark theme and every
        registered sun exactly in the light theme. */
    ghost predicate ThemeConsistent()
      reads this
    {
      AllHidden(moon, dark) && AllHidden(sun, !dark)
    }

    /** The header template shows the moon and hides the sun. */
    predicate HeaderTemplateIsLight()
    {
      !headerIcons.moonHidden && headerIcons.sunHidden
    }

    /** Startup: history holds the home page, the theme buttons of the
        document are registered under `btn-0`, `btn-1`, ..., and the theme is
        chosen from the saved value or the system preference and applied. */
    constructor Start(elements: map<PageId, Page>, buttons: seq<IconPair>, headerIcons: IconPair,
                      titles: map<PageId, string>, saved: Option<string>, prefersDark: bool)
      ensures Valid()
      ensures history == ["page-home"] && pages == elements && persisted == saved
      ensures cat == DayExerciseMap && this.headerIcons == headerIcons && this.titles == titles
      ensures dark == InitialDark(saved, prefersDark)
      ensures moon.Keys == (set i | 0 <= i < |buttons| :: ButtonKey(i))
      ensures ThemeConsistent()
    {
      cat := DayExerciseMap;
      this.headerIcons := headerIcons;
      this.titles := titles;
      history := ["page-home"];
      pages := elements;
      persisted := saved;
      var m, s := RegisterButtons(buttons);
      moon, sun := m, s;
      dark := false;
      new;
      SetDarkMode(InitialDark(saved, prefersDark));
    }

    /** `setDarkMode`: the theme flag and every registered icon follow `isDark`. */
    method SetDarkMode(isDark: bool)
      requires Valid()
      modifies this
      ensures Valid() && dark == isDark && ThemeConsistent()
      ensures moon.Keys == old(moon).Keys && sun.Keys == old(sun).Keys
      ensures history == old(history) && pages == old(pages) && persisted == old(persisted)
    {
      dark := isDark;
      moon := SetAll(moon, isDark);
      sun := SetAll(sun, !isDark);
    }

    /** `toggleDarkMode`: the opposite theme is saved and applied. */
    method ToggleDarkMode()
      requires Valid()
      modifies this
      ensures Valid() && dark == !old(dark) && ThemeConsistent()
      ensures persisted == Some(BoolText(!old(dark)))
      ensures moon.Keys == old(moon).Keys && sun.Keys == old(sun).Keys
      ensures history == old(history) && pages == old(pages)
    {
      var isDark := dark;
      persisted := Some(BoolText(!isDark));
      SetDarkMode(!isDark);
    }

    /** Header injection: a page without a header gets one, with a title
        slot, and its theme button is registered under `btn-<pageId>`; in
        the dark theme its moon is hidden and its sun shown, otherwise the
        icons keep the template's state. A page with a header is left alone. */
    method InjectHeader(pageId: PageId)
      requires Valid() && pageId in pages
      modifies this
      ensures Valid() && pages.Keys == old(pages).Keys && pages[pageId].header
      ensures history == old(history) && dark == old(dark) && persisted == old(persisted)
      ensures forall q :: q in pages && q != pageId ==> pages[q] == old(pages)[q]
      ensures old(pages)[pageId].header ==> pages == old(pages) && moon == old(moon) && sun == old(sun)
      ensures !old(pages)[pageId].header ==>
        && pages[pageId] == old(pages)[pageId].(header := true, titleSlot := true)
        && moon == old(moon)[HeaderKey(pageId) := if dark then true else headerIcons.moonHidden]
        && sun == old(sun)[HeaderKey(pageId) := if dark then false else headerIcons.sunHidden]
      ensures old(ThemeConsistent()) && HeaderTemplateIsLight() ==> ThemeConsistent()
    {
      var page := pages[pageId];
      if !page.header {
        pages := pages[pageId := page.(header := true, titleSlot := true)];
        var key := HeaderKey(pageId);
        var m, s := moon[key := headerIcons.moonHidden], sun[key := headerIcons.sunHidden];
        if dark {
          m, s := m[key := true], s[key := false];
        }
        moon, sun := m, s;
      }
    }

    /** `addDetailNav` on page `pageId`. */
    method AddDetailNav(pageId: PageId)
      requires Valid() && pageId in pages
      modifies this
      ensures Valid()
      ensures pages == old(pages)[pageId := WithDetailNav(cat, old(pages)[pageId], pageId)]
      ensures history == old(history) && dark == old(dark) && persisted == old(persisted)
      ensures moon == old(moon) && sun == old(sun)
      ensures IsDetailPage(cat, pageId) ==>
        && pages[pageId].navBars == (if old(pages)[pageId].navBars == 0 then 1 else old(pages)[pageId].navBars)
        && (pages[pageId].bar.prevHidden <==> GetNeighbours(cat, pageId).prev.None?)
        && (pages[pageId].bar.nextHidden <==> GetNeighbours(cat, pageId).next.None?)
      ensures !IsDetailPage(cat, pageId) && old(pages)[pageId].navBars <= 1 ==>
        pages[pageId].navBars == 0
    {
      var page := pages[pageId];
      if IsDetailPage(cat, pageId) {
        if page.navBars == 0 {
          page := page.(navBars := 1);
        }
        var n := GetNeighbours(cat, pageId);
        page := page.(bar := page.bar.(prevHidden := n.prev.None?, nextHidden := n.next.None?));
        page := page.(bar := page.bar.(onPrev := n.prev, onNext := n.next));
      } else if page.navBars > 0 {
        page := page.(navBars := page.navBars - 1);
      }
      pages := pages[pageId := page];
    }

    /** `navigateTo(pageId, pageTitle, isForward, isReplacement)`: a missing
        page changes nothing; otherwise the history and the pages become
        what `NextHistory` and `EnteredPages` describe, the header button of
        a freshly decorated page is registered, and the invariants hold on. */
    method NavigateTo(pageId: PageId, pageTitle: Option<string>, isForward: bool, isReplacement: bool)
      requires Valid()
      modifies this
      ensures Valid()
      ensures dark == old(dark) && persisted == old(persisted)
      ensures pageId !in old(pages) ==>
        history == old(history) && pages == old(pages) && moon == old(moon) && sun == old(sun)
      ensures pageId in old(pages) ==> history == NextHistory(old(history), pageId, isReplacement)
      ensures pageId in old(pages) ==>
        pages == EnteredPages(cat, old(pages), old(Top()), pageId, pageTitle, isForward)
      ensures pageId in old(pages) && old(pages)[pageId].header ==> moon == old(moon) && sun == old(sun)
      ensures pageId in old(pages) && !old(pages)[pageId].header ==>
        && moon == old(moon)[HeaderKey(pageId) := if dark then true else headerIcons.moonHidden]
        && sun == old(sun)[HeaderKey(pageId) := if dark then false else headerIcons.sunHidden]
      ensures old(ActiveIsTop(pages, history)) ==> ActiveIsTop(pages, history)
      ensures old(AtMostOneNavBar(pages)) ==> AtMostOneNavBar(pages)
      ensures old(AtMostOneNavBar(pages)) && (pageId in old(pages) || old(NavBarOnlyOnTop(pages, history))) ==>
        NavBarOnlyOnTop(pages, history)
      ensures old(ThemeConsistent()) && HeaderTemplateIsLight() ==> ThemeConsistent()
    {
      if pageId !in pages {
        return;
      }
      Enter(pageId, pageTitle, isForward, isReplacement);
    }

    /** `navigateTo` past its missing-page guard: the decoration, nav-bar,
        history and class stages in the script's order. */
    method Enter(pageId: PageId, pageTitle: Option<string>, isForward: bool, isReplacement: bool)
      requires Valid() && pageId in pages
      modifies this
      ensures Valid()
      ensures dark == old(dark) && persisted == old(persisted)
      ensures history == NextHistory(old(history), pageId, isReplacement)
      ensures pages == EnteredPages(cat, old(pages), old(Top()), pageId, pageTitle, isForward)
      ensures old(pages)[pageId].header ==> moon == old(moon) && sun == old(sun)
      ensures !old(pages)[pageId].header ==>
        && moon == old(moon)[HeaderKey(pageId) := if dark then true else headerIcons.moonHidden]
        && sun == old(sun)[HeaderKey(pageId) := if dark then false else headerIcons.sunHidden]
      ensures old(ActiveIsTop(pages, history)) ==> ActiveIsTop(pages, history)
      ensures old(AtMostOneNavBar(pages)) ==> AtMostOneNavBar(pages) && NavBarOnlyOnTop(pages, history)
      ensures old(ThemeConsistent()) && HeaderTemplateIsLight() ==> ThemeConsistent()
    {
      var currentPageId := history[|history| - 1];
      ghost var h0, p0 := history, pages;

      DecorateTarget(pageId, pageTitle);
      ghost var p1 := pages;
      ReconcileBars(pageId);
      ghost var p2 := pages;
      RecordVisit(pageId, isReplacement);
      ParkPages(currentPageId, pageId, isForward);

      EnteredPagesInStages(cat, p0, currentPageId, pageId, pageTitle, isForward);
      assert pages == EnteredPages(cat, p0, currentPageId, pageId, pageTitle, isForward);
      EnterKeepsInvariants(cat, p0, h0, pageId, pageTitle, isForward, isReplacement, pages, history);
    }

    /** The first stage of `navigateTo`: the header is injected and the title
        written into the title slot, when the page has one. */
    method DecorateTarget(pageId: PageId, pageTitle: Option<string>)
      requires Valid() && pageId in pages
      modifies this
      ensures Valid() && history == old(history) && dark == old(dark) && persisted == old(persisted)
      ensures pages == old(pages)[pageId := Decorated(old(pages)[pageId], pageTitle)]
      ensures old(pages)[pageId].header ==> moon == old(moon) && sun == old(sun)
      ensures !old(pages)[pageId].header ==>
        && moon == old(moon)[HeaderKey(pageId) := if dark then true else headerIcons.moonHidden]
        && sun == old(sun)[HeaderKey(pageId) := if dark then false else headerIcons.sunHidden]
      ensures old(ThemeConsistent()) && HeaderTemplateIsLight() ==> ThemeConsistent()
    {
      ghost var p0 := pages;
      InjectHeader(pageId);
      WriteTitle(pageId, pageTitle);
      assert pages[pageId] == Decorated(p0[pageId], pageTitle);
    }

    /** `titleElement.textContent = pageTitle` when the page has a title slot. */
    method WriteTitle(pageId: PageId, pageTitle: Option<string>)
      requires Valid() && pageId in pages
      modifies this
      ensures Valid() && history == old(history) && dark == old(dark) && persisted == old(persisted)
      ensures moon == old(moon) && sun == old(sun)
      ensures pageId in pages
      ensures pages[pageId].title == if old(pages)[pageId].titleSlot then pageTitle else old(pages)[pageId].title
      ensures pages == old(pages)[pageId := old(pages)[pageId].(title := pages[pageId].title)]
    {
      var page := pages[pageId];
      if page.titleSlot {
        pages := pages[pageId := page.(title := pageTitle)];
      }
    }

    /** The nav-bar stage of `navigateTo`: every bar outside `pageId` is
        removed, then `addDetailNav` runs on `pageId`. */
    method ReconcileBars(pageId: PageId)
      requires Valid() && pageId in pages
      modifies this
      ensures Valid() && history == old(history) && dark == old(dark) && persisted == old(persisted)
      ensures moon == old(moon) && sun == old(sun)
      ensures pages == Reconciled(cat, old(pages), pageId)
    {
      pages := RemoveNavBarsExcept(pages, pageId);
      AddDetailNav(pageId);
    }

    /** The history stage of `navigateTo`: replace mode pops the current
        entry and pushes `pageId`; push mode pushes it unless it is already
        the current page. */
    method RecordVisit(pageId: PageId, isReplacement: bool)
      requires Valid()
      modifies this
      ensures Valid() && history == NextHistory(old(history), pageId, isReplacement)
      ensures pages == old(pages) && dark == old(dark) && persisted == old(persisted)
      ensures moon == old(moon) && sun == old(sun)
    {
      var currentPageId := history[|history| - 1];
      if isReplacement {
        history := history[..|history| - 1];
        history := history + [pageId];
      } else if currentPageId != pageId {
        history := history + [pageId];
      }
    }

    /** The class stage of `navigateTo`: `page-previous` is cleared on every
        page, the page left is deactivated (and parked on a forward move),
        and the target is activated and scrolled to the top. */
    method ParkPages(currentPageId: PageId, pageId: PageId, isForward: bool)
      requires Valid() && pageId in pages
      modifies this
      ensures Valid() && history == old(history) && dark == old(dark) && persisted == old(persisted)
      ensures moon == old(moon) && sun == old(sun)
      ensures pages == Parked(old(pages), currentPageId, pageId, isForward)
    {
      var ps := ClearPrevious(pages);
      if currentPageId in ps && currentPageId != pageId {
        var current := ps[currentPageId];
        ps := ps[currentPageId := current.(previous := isForward, active := false)];
      }
      var page := ps[pageId];
      ps := ps[pageId := page.(active := true, scroll := 0)];
      ParkedPointwise(pages, currentPageId, pageId, isForward, ps);
      pages := ps;
    }

    /** `navigateBack`: with more than one entry the current page is popped
        and left, and the page below becomes active again with its nav bar
        recomputed, as `BackHistory` and `BackPages` describe; otherwise
        nothing happens. */
    method NavigateBack()
      requires Valid()
      modifies this
      ensures Valid()
      ensures moon == old(moon) && sun == old(sun) && dark == old(dark) && persisted == old(persisted)
      ensures |old(history)| <= 1 ==> history == old(history) && pages == old(pages)
      ensures |old(history)| > 1 ==>
        && history == BackHistory(old(history))
        && pages == BackPages(cat, old(pages), old(Top()), Top())
      ensures old(ActiveIsTop(pages, history)) ==> ActiveIsTop(pages, history)
      ensures old(AtMostOneNavBar(pages)) ==> AtMostOneNavBar(pages)
      ensures old(AtMostOneNavBar(pages)) && old(NavBarOnlyOnTop(pages, history)) ==> NavBarOnlyOnTop(pages, history)
    {
      if |history| <= 1 {
        return;
      }
      Retreat();
    }

    /** `navigateBack` past its one-entry guard. */
    method Retreat()
      requires Valid() && |history| > 1
      modifies this
      ensures Valid()
      ensures moon == old(moon) && sun == old(sun) && dark == old(dark) && persisted == old(persisted)
      ensures history == BackHistory(old(history))
      ensures pages == BackPages(cat, old(pages), old(Top()), Top())
      ensures old(ActiveIsTop(pages, history)) ==> ActiveIsTop(pages, history)
      ensures old(AtMostOneNavBar(pages)) ==> AtMostOneNavBar(pages)
      ensures old(AtMostOneNavBar(pages)) && old(NavBarOnlyOnTop(pages, history)) ==> NavBarOnlyOnTop(pages, history)
    {
      ghost var h0, p0 := history, pages;
      var currentPageId := history[|history| - 1];
      history := history[..|history| - 1];
      var previousPageId := history[|history| - 1];
      LeavePage(currentPageId);
      ReturnTo(previousPageId);
      BackKeepsInvariants(cat, p0, h0, pages, history);
    }

    /** The first half of `navigateBack`: the page popped loses its first nav
        bar and both animation classes. */
    method LeavePage(pageId: PageId)
      requires Valid()
      modifies this
      ensures Valid() && history == old(history) && dark == old(dark) && persisted == old(persisted)
      ensures moon == old(moon) && sun == old(sun)
      ensures pages == if pageId in old(pages) then old(pages)[pageId := Leave(old(pages)[pageId])] else old(pages)
    {
      if pageId in pages {
        var current := pages[pageId];
        if current.navBars > 0 {
          current := current.(navBars := current.navBars - 1);
        }
        current := current.(active := false, previous := false);
        pages := pages[pageId := current];
      }
    }

    /** The second half of `navigateBack`: the page returned to is
        activated and unparked, and `addDetailNav` runs on it. */
    method ReturnTo(pageId: PageId)
      requires Valid()
      modifies this
      ensures Valid() && history == old(history) && dark == old(dark) && persisted == old(persisted)
      ensures moon == old(moon) && sun == old(sun)
      ensures pages == if pageId in old(pages)
        then old(pages)[pageId := WithDetailNav(cat, old(pages)[pageId].(active := true, previous := false), pageId)]
        else old(pages)
    {
      if pageId in pages {
        var previous := pages[pageId];
        pages := pages[pageId := previous.(previous := false, active := true)];
        AddDetailNav(pageId);
      }
    }

    /** The click handler of a tile whose `data-target` is `target` and whose
        `data-title` is `title`: an ordinary forward push. */
    method OpenTile(target: PageId, title: Option<string>)
      requires Valid()
      modifies this
      ensures Valid()
      ensures dark == old(dark) && persisted == old(persisted)
      ensures target !in old(pages) ==>
        history == old(history) && pages == old(pages) && moon == old(moon) && sun == old(sun)
      ensures target in old(pages) ==>
        && history == NextHistory(old(history), target, false)
        && pages == EnteredPages(cat, old(pages), old(Top()), target, title, true)
      ensures target in old(pages) && old(Top()) != target ==>
        && history == old(history) + [target]
        && (old(Top()) in pages ==> pages[old(Top())].previous && !pages[old(Top())].active)
      ensures target in old(pages) && old(pages)[target].header ==> moon == old(moon) && sun == old(sun)
      ensures target in old(pages) && !old(pages)[target].header ==>
        && moon == old(moon)[HeaderKey(target) := if dark then true else headerIcons.moonHidden]
        && sun == old(sun)[HeaderKey(target) := if dark then false else headerIcons.sunHidden]
      ensures old(ActiveIsTop(pages, history)) ==> ActiveIsTop(pages, history)
      ensures old(AtMostOneNavBar(pages)) ==> AtMostOneNavBar(pages)
      ensures old(ThemeConsistent()) && HeaderTemplateIsLight() ==> ThemeConsistent()
    {
      ghost var h0, p0 := history, pages;
      NavigateTo(target, title, true, false);
      if target in p0 {
        PushAppendsNewTop(h0, target);
        EnteredOthers(cat, p0, h0[|h0| - 1], target, title, true);
      }
    }

    /** The click handler of the previous button of the bar on `pageId`: a
        backward move that replaces the current history entry, to the page
        and with the title the directional lookup gives, or nothing when the
        button goes nowhere or its page is missing. On arrival no page is
        parked. The button exists only while the page holds a bar. */
    method ClickPrev(pageId: PageId)
      requires Valid() && pageId in pages && pages[pageId].navBars >= 1
      modifies this
      ensures Valid()
      ensures dark == old(dark) && persisted == old(persisted)
      ensures var t := old(pages)[pageId].bar.onPrev; t.None? || t.value !in old(pages) ==>
        history == old(history) && pages == old(pages) && moon == old(moon) && sun == old(sun)
      ensures var t := old(pages)[pageId].bar.onPrev; t.Some? && t.value in old(pages) ==>
        && history == NextHistory(old(history), t.value, true)
        && pages == EnteredPages(cat, old(pages), old(Top()), t.value, GetLink(cat, pageId, Prev, titles).title, false)
        && t.value in pages && pages[t.value].active
        && (forall q :: q in pages ==> !pages[q].previous)
      ensures var t := old(pages)[pageId].bar.onPrev; t.Some? && t.value in old(pages) ==>
        if old(pages)[t.value].header then moon == old(moon) && sun == old(sun)
        else
          && moon == old(moon)[HeaderKey(t.value) := if dark then true else headerIcons.moonHidden]
          && sun == old(sun)[HeaderKey(t.value) := if dark then false else headerIcons.sunHidden]
      ensures old(ActiveIsTop(pages, history)) ==> ActiveIsTop(pages, history)
      ensures old(AtMostOneNavBar(pages)) ==> AtMostOneNavBar(pages)
      ensures old(ThemeConsistent()) && HeaderTemplateIsLight() ==> ThemeConsistent()
    {
      var target := pages[pageId].bar.onPrev;
      if target.Some? {
        var link := GetLink(cat, pageId, Prev, titles);
        ghost var cur := Top();
        ghost var p0 := pages;
        NavigateTo(target.value, link.title, false, true);
        if target.value in p0 {
          EnteredTarget(cat, p0, cur, target.value, link.title, false);
          EnteredOthers(cat, p0, cur, target.value, link.title, false);
        }
      }
    }

    /** The click handler of the next button of the bar on `pageId`: a
        forward move that replaces the current history entry, to the page
        and with the title the directional lookup gives, or nothing when the
        button goes nowhere or its page is missing. On arrival only the page
        left is parked. The button exists only while the page holds a bar. */
    method ClickNext(pageId: PageId)
      requires Valid() && pageId in pages && pages[pageId].navBars >= 1
      modifies this
      ensures Valid()
      ensures dark == old(dark) && persisted == old(persisted)
      ensures var t := old(pages)[pageId].bar.onNext; t.None? || t.value !in old(pages) ==>
        history == old(history) && pages == old(pages) && moon == old(moon) && sun == old(sun)
      ensures var t := old(pages)[pageId].bar.onNext; t.Some? && t.value in old(pages) ==>
        && history == NextHistory(old(history), t.value, true)
        && pages == EnteredPages(cat, old(pages), old(Top()), t.value, GetLink(cat, pageId, Next, titles).title, true)
        && t.value in pages && pages[t.value].active
        && (forall q :: q in pages ==> (pages[q].previous <==> q == old(Top()) && q != t.value))
      ensures var t := old(pages)[pageId].bar.onNext; t.Some? && t.value in old(pages) ==>
        if old(pages)[t.value].header then moon == old(moon) && sun == old(sun)
        else
          && moon == old(moon)[HeaderKey(t.value) := if dark then true else headerIcons.moonHidden]
          && sun == old(sun)[HeaderKey(t.value) := if dark then false else headerIcons.sunHidden]
      ensures old(ActiveIsTop(pages, history)) ==> ActiveIsTop(pages, history)
      ensures old(AtMostOneNavBar(pages)) ==> AtMostOneNavBar(pages)
      ensures old(ThemeConsistent()) && HeaderTemplateIsLight() ==> ThemeConsistent()
    {
      var target := pages[pageId].bar.onNext;
      if target.Some? {
        var link := GetLink(cat, pageId, Next, titles);
        ghost var cur := Top();
        ghost var p0 := pages;
        NavigateTo(target.value, link.title, true, true);
        if target.value in p0 {
          EnteredTarget(cat, p0, cur, target.value, link.title, true);
          EnteredOthers(cat, p0, cur, target.value, link.title, true);
        }
      }
    }
  }
}
