/** What one navigation does to the history and to the page elements,
    written as functions of the state before it, with the invariants the
    script keeps and the round trip of a forward move followed by a back
    move. */
module Transitions {

  import opened Wrappers
  import opened Catalogue
  import opened Pages

  type PageMap = map<PageId, Page>

  // ----- History -----

  /** The history after `navigateTo` to an existing page: replace mode pops
      and pushes, push mode pushes unless the page is already current. */
  function NextHistory(h: seq<PageId>, id: PageId, replace: bool): (r: seq<PageId>)
    requires |h| >= 1
    ensures |r| >= 1 && r[|r| - 1] == id
    ensures r[..|r| - 1] == h[..|h| - 1] || r[..|r| - 1] == h
    ensures !replace ==> h <= r
  {
    if replace then h[..|h| - 1] + [id]
    else if h[|h| - 1] == id then h
    else h + [id]
  }

  /** The history after `navigateBack` with more than one entry. */
  function BackHistory(h: seq<PageId>): (r: seq<PageId>)
    requires |h| >= 2
    ensures |r| == |h| - 1 && r + [h[|h| - 1]] == h
  {
    h[..|h| - 1]
  }

  // ----- Pages -----

  /** The page a `navigateTo` enters, after the header is in place and the
      title written into the title slot (when there is one). */
  function Decorated(p: Page, title: Option<string>): (r: Page)
    ensures r == p.(header := true, titleSlot := r.titleSlot, title := r.title)
    ensures p.header ==> r.titleSlot == p.titleSlot
    ensures !p.header ==> r.titleSlot
    ensures r.titleSlot ==> r.title == title
    ensures !r.titleSlot ==> r.title == p.title
  {
    var slot := p.titleSlot || !p.header;
    p.(header := true, titleSlot := slot, title := if slot then title else p.title)
  }

  /** The entered page at the end of `navigateTo`. */
  function Entered(cat: Days, p: Page, id: PageId, title: Option<string>): Page
  {
    WithDetailNav(cat, Decorated(p, title), id).(active := true, previous := false, scroll := 0)
  }

  /** Any other page at the end of `navigateTo`: its bars are gone, it is
      parked exactly when it is the page being left on a forward move, and
      only the page being left is deactivated. */
  function Bystander(p: Page, isLeft: bool, isForward: bool): Page
  {
    p.(active := p.active && !isLeft, previous := isForward && isLeft, navBars := 0)
  }

  /** All pages after `navigateTo(id, title, isForward, _)` from `current`. */
  function EnteredPages(cat: Days, pages: PageMap, current: PageId, id: PageId,
                        title: Option<string>, isForward: bool): (r: PageMap)
    requires id in pages
    ensures r.Keys == pages.Keys
    ensures r[id].active && !r[id].previous && r[id].header && r[id].scroll == 0
    ensures forall q :: q in r && q != id ==> r[q].navBars == 0 && r[q].header == pages[q].header
  {
    map q | q in pages :: if q == id then Entered(cat, pages[q], id, title)
                          else Bystander(pages[q], q == current, isForward)
  }

  /** The pages after the nav-bar stage of `navigateTo`: every bar outside
      the target is removed, then `addDetailNav` runs on the target. */
  function Reconciled(cat: Days, pages: PageMap, id: PageId): PageMap
  {
    map q | q in pages :: if q == id then WithDetailNav(cat, pages[q], id) else pages[q].(navBars := 0)
  }

  /** The pages after the class stage of `navigateTo`: `page-previous` is
      cleared everywhere, the page left (when it is another page) is
      deactivated and parked on a forward move, and the target is activated
      and scrolled to the top. */
  function Parked(pages: PageMap, current: PageId, id: PageId, isForward: bool): PageMap
  {
    map q | q in pages ::
      if q == id then pages[q].(active := true, previous := false, scroll := 0)
      else pages[q].(active := pages[q].active && q != current, previous := isForward && q == current)
  }

  /** A map that agrees with `Parked` on every page is `Parked`. */
  lemma ParkedPointwise(pages: PageMap, current: PageId, id: PageId, isForward: bool, r: PageMap)
    requires r.Keys == pages.Keys && id in pages
    requires r[id] == pages[id].(previous := false).(active := true, scroll := 0)
    requires current in pages && current != id ==>
      r[current] == pages[current].(previous := false).(previous := isForward, active := false)
    requires forall q :: q in r && q != id && q != current ==> r[q] == pages[q].(previous := false)
    ensures r == Parked(pages, current, id, isForward)
  {
    var e := Parked(pages, current, id, isForward);
    forall q | q in e
      ensures r[q] == e[q]
    {
    }
    assert r.Keys == e.Keys;
  }

  /** All pages after `navigateBack` from `left` to `back`. */
  function BackPages(cat: Days, pages: PageMap, left: PageId, back: PageId): (r: PageMap)
    ensures r.Keys == pages.Keys
    ensures forall q :: q in r && q != left && q != back ==> r[q] == pages[q]
    ensures left in r && left != back ==> !r[left].active && !r[left].previous
    ensures back in r ==> r[back].active && !r[back].previous
  {
    var mid := if left in pages then pages[left := Leave(pages[left])] else pages;
    if back in mid then mid[back := WithDetailNav(cat, mid[back].(active := true, previous := false), back)]
    else mid
  }

  // ----- Invariants -----

  /** Exactly the current page, if it exists, is active. */
  ghost predicate ActiveIsTop(pages: PageMap, h: seq<PageId>)
    requires |h| >= 1
  {
    forall q :: q in pages ==> (pages[q].active <==> q == h[|h| - 1])
  }

  /** No page holds more than one nav bar. */
  ghost predicate AtMostOneNavBar(pages: PageMap)
  {
    forall q :: q in pages ==> pages[q].navBars <= 1
  }

  /** Only the current page may hold a nav bar. */
  ghost predicate NavBarOnlyOnTop(pages: PageMap, h: seq<PageId>)
    requires |h| >= 1
  {
    forall q :: q in pages && q != h[|h| - 1] ==> pages[q].navBars == 0
  }

  // ----- Lemmas about history -----

  /** Replace mode keeps the length, puts the target on top and leaves every
      lower entry as it was, even when the history holds only the root. */
  lemma ReplaceSwapsTop(h: seq<PageId>, id: PageId)
    requires |h| >= 1
    ensures var r := NextHistory(h, id, true);
      |r| == |h| && r[|r| - 1] == id && forall i :: 0 <= i < |h| - 1 ==> r[i] == h[i]
  {
  }

  /** Push mode appends the target exactly when it is not already on top. */
  lemma PushAppendsNewTop(h: seq<PageId>, id: PageId)
    requires |h| >= 1
    ensures var r := NextHistory(h, id, false);
      && (h[|h| - 1] == id ==> r == h)
      && (h[|h| - 1] != id ==> |r| == |h| + 1 && r[..|h|] == h && r[|h|] == id)
  {
  }

  /** A push followed by a back move restores the history. */
  lemma PushThenBackRestoresHistory(h: seq<PageId>, id: PageId)
    requires |h| >= 1 && h[|h| - 1] != id
    ensures |NextHistory(h, id, false)| >= 2 && BackHistory(NextHistory(h, id, false)) == h
  {
    assert (h + [id])[..|h|] == h;
  }

  // ----- Lemmas about navigateTo -----

  /** After `navigateTo` the target is active, not parked, has a header and
      is scrolled to the top; its bar is what `addDetailNav` leaves. */
  lemma EnteredTarget(cat: Days, pages: PageMap, current: PageId, id: PageId,
                      title: Option<string>, isForward: bool)
    requires id in pages
    ensures var r := EnteredPages(cat, pages, current, id, title, isForward);
      && r.Keys == pages.Keys
      && r[id].active && !r[id].previous && r[id].header && r[id].scroll == 0
      && r[id].navBars == WithDetailNav(cat, pages[id], id).navBars
      && r[id].bar == WithDetailNav(cat, pages[id], id).bar
      && (r[id].titleSlot ==> r[id].title == title)
  {
    var r := EnteredPages(cat, pages, current, id, title, isForward);
  }

  /** After `navigateTo` the only parked page is the page left, and only when
      the move was forward and went somewhere else; the page left is no
      longer active; and no page other than the target keeps a bar. */
  lemma EnteredOthers(cat: Days, pages: PageMap, current: PageId, id: PageId,
                      title: Option<string>, isForward: bool)
    requires id in pages
    ensures var r := EnteredPages(cat, pages, current, id, title, isForward);
      && (forall q :: q in r ==> (r[q].previous <==> isForward && q == current && q != id))
      && (current in r && current != id ==> !r[current].active)
      && (forall q :: q in r && q != id ==> r[q].navBars == 0)
  {
  }

  /** The three stages of `navigateTo` (decoration, nav bars, classes)
      together give `EnteredPages`. */
  lemma EnteredPagesInStages(cat: Days, pages: PageMap, current: PageId, id: PageId,
                             title: Option<string>, isForward: bool)
    requires id in pages
    ensures Parked(Reconciled(cat, pages[id := Decorated(pages[id], title)], id), current, id, isForward)
         == EnteredPages(cat, pages, current, id, title, isForward)
  {
    var p1 := pages[id := Decorated(pages[id], title)];
    var p2 := Reconciled(cat, p1, id);
    var p3 := Parked(p2, current, id, isForward);
    var e := EnteredPages(cat, pages, current, id, title, isForward);
    forall q | q in e
      ensures p3[q] == e[q]
    {
      if q != id {
        assert p2[q] == pages[q].(navBars := 0);
      }
    }
    assert p3.Keys == e.Keys;
  }

  /** `navigateTo` keeps "exactly the current page is active". */
  lemma EnterKeepsActiveIsTop(cat: Days, pages: PageMap, h: seq<PageId>, id: PageId,
                              title: Option<string>, isForward: bool, replace: bool)
    requires |h| >= 1 && id in pages && ActiveIsTop(pages, h)
    ensures ActiveIsTop(EnteredPages(cat, pages, h[|h| - 1], id, title, isForward), NextHistory(h, id, replace))
  {
    var r := EnteredPages(cat, pages, h[|h| - 1], id, title, isForward);
    var h' := NextHistory(h, id, replace);
    assert h'[|h'| - 1] == id;
    forall q | q in r
      ensures r[q].active <==> q == id
    {
      if q != id {
        assert r[q] == Bystander(pages[q], q == h[|h| - 1], isForward);
      }
    }
  }

  /** `navigateTo` leaves a bar on the target alone, and at most one. */
  lemma EnterKeepsBarsOnTop(cat: Days, pages: PageMap, h: seq<PageId>, id: PageId,
                            title: Option<string>, isForward: bool, replace: bool)
    requires |h| >= 1 && id in pages && AtMostOneNavBar(pages)
    ensures var r := EnteredPages(cat, pages, h[|h| - 1], id, title, isForward);
      AtMostOneNavBar(r) && NavBarOnlyOnTop(r, NextHistory(h, id, replace))
  {
    var r := EnteredPages(cat, pages, h[|h| - 1], id, title, isForward);
    var h' := NextHistory(h, id, replace);
    assert h'[|h'| - 1] == id;
    assert r[id].navBars <= 1;
  }

  /** `navigateTo` keeps every navigation invariant: `r` and `h'` are the
      pages and the history after it. */
  lemma EnterKeepsInvariants(cat: Days, pages: PageMap, h: seq<PageId>, id: PageId,
                             title: Option<string>, isForward: bool, replace: bool,
                             r: PageMap, h': seq<PageId>)
    requires |h| >= 1 && id in pages
    requires r == EnteredPages(cat, pages, h[|h| - 1], id, title, isForward)
    requires h' == NextHistory(h, id, replace)
    ensures |h'| >= 1
    ensures ActiveIsTop(pages, h) ==> ActiveIsTop(r, h')
    ensures AtMostOneNavBar(pages) ==> AtMostOneNavBar(r) && NavBarOnlyOnTop(r, h')
  {
    if ActiveIsTop(pages, h) {
      EnterKeepsActiveIsTop(cat, pages, h, id, title, isForward, replace);
    }
    if AtMostOneNavBar(pages) {
      EnterKeepsBarsOnTop(cat, pages, h, id, title, isForward, replace);
    }
  }

  // ----- Lemmas about navigateBack -----

  /** After `navigateBack` the page left has lost its classes and its bar,
      the page returned to is active and not parked, and its bar is
      recomputed; nothing else changes. */
  lemma BackEffects(cat: Days, pages: PageMap, left: PageId, back: PageId)
    ensures var r := BackPages(cat, pages, left, back);
      && r.Keys == pages.Keys
      && (left in r && left != back ==>
            !r[left].active && !r[left].previous && (pages[left].navBars <= 1 ==> r[left].navBars == 0))
      && (back in r ==> r[back].active && !r[back].previous)
      && (back in r && IsDetailPage(cat, back) ==> r[back].navBars >= 1 && r[back].bar == BarFor(cat, back))
      && (forall q :: q in r && q != left && q != back ==> r[q] == pages[q])
  {
  }

  /** `navigateBack` keeps "exactly the current page is active" and "only
      the current page holds a bar, at most one": `r` and `h'` are the pages
      and the history after it. */
  lemma BackKeepsInvariants(cat: Days, pages: PageMap, h: seq<PageId>, r: PageMap, h': seq<PageId>)
    requires |h| >= 2 && h' == BackHistory(h) && r == BackPages(cat, pages, h[|h| - 1], h[|h| - 2])
    ensures |h'| >= 1
    ensures ActiveIsTop(pages, h) ==> ActiveIsTop(r, h')
    ensures AtMostOneNavBar(pages) ==> AtMostOneNavBar(r)
    ensures AtMostOneNavBar(pages) && NavBarOnlyOnTop(pages, h) ==> NavBarOnlyOnTop(r, h')
  {
    var left, back := h[|h| - 1], h[|h| - 2];
    assert h'[|h'| - 1] == back;
    BackEffects(cat, pages, left, back);
    if back in r {
      var mid := if left in pages then pages[left := Leave(pages[left])] else pages;
    }
  }

  // ----- Round trip -----

  /** A forward push to another page followed by a back move makes the page
      left active again, unparked, with the same bar a fresh `addDetailNav`
      gives it, and restores the history. */
  lemma ForwardThenBack(cat: Days, pages: PageMap, h: seq<PageId>, id: PageId, title: Option<string>)
    requires |h| >= 1 && id in pages && h[|h| - 1] != id
    ensures var cur := h[|h| - 1];
      var h1 := NextHistory(h, id, false);
      var p1 := EnteredPages(cat, pages, cur, id, title, true);
      && |h1| >= 2 && h1[|h1| - 1] == id && h1[|h1| - 2] == cur
      && BackHistory(h1) == h
      && var p2 := BackPages(cat, p1, id, cur);
         && p2.Keys == pages.Keys
         && (cur in pages ==> p2[cur].active && !p2[cur].previous)
         && (cur in pages && IsDetailPage(cat, cur) ==> p2[cur].navBars == 1 && p2[cur].bar == BarFor(cat, cur))
         && (cur in pages && !IsDetailPage(cat, cur) ==> p2[cur].navBars == 0)
         && (cur in pages ==> p2[cur] == pages[cur].(active := true, previous := false,
                                                         navBars := p2[cur].navBars, bar := p2[cur].bar))
  {
    var cur := h[|h| - 1];
    PushThenBackRestoresHistory(h, id);
    var p1 := EnteredPages(cat, pages, cur, id, title, true);
    EnteredTarget(cat, pages, cur, id, title, true);
    BackEffects(cat, p1, id, cur);
    if cur in pages {
      var mid := p1[id := Leave(p1[id])];
      assert mid[cur] == p1[cur] == Bystander(pages[cur], true, true);
    }
  }
}
