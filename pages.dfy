/** The visual state of one page element and the operations the script
    performs on it: the detail-nav bar reconciliation of `addDetailNav`, the
    state a page is left in by a back move, and the two document-wide loops
    of `navigateTo` that strip `page-previous` classes and foreign nav bars. */
module Pages {

  import opened Wrappers
  import opened Catalogue

  /** The two buttons of a detail-nav bar: whether each carries the `hidden`
      class, and the page its click handler moves to (none when the handler
      does nothing). */
  datatype NavBar = NavBar(prevHidden: bool, nextHidden: bool, onPrev: Option<PageId>, onNext: Option<PageId>)

  /** A page element: its `page-active` and `page-previous` classes, whether
      it contains a header and a title slot, the title text, how many
      detail-nav bars it contains, the buttons of the first of them, and its
      scroll offset. */
  datatype Page = Page(
    active: bool,
    previous: bool,
    header: bool,
    titleSlot: bool,
    title: Option<string>,
    navBars: nat,
    bar: NavBar,
    scroll: int)

  /** The buttons `addDetailNav` gives the bar of page `id`: each is hidden
      when its neighbour is missing and moves to that neighbour otherwise. */
  function BarFor(cat: Days, id: PageId): (b: NavBar)
    ensures b.prevHidden <==> b.onPrev.None?
    ensures b.nextHidden <==> b.onNext.None?
    ensures b.onPrev == GetNeighbours(cat, id).prev && b.onNext == GetNeighbours(cat, id).next
    ensures b.onPrev.Some? ==> DayKey(id) in cat && b.onPrev.value in cat[DayKey(id)]
    ensures b.onNext.Some? ==> DayKey(id) in cat && b.onNext.value in cat[DayKey(id)]
  {
    var n := GetNeighbours(cat, id);
    NavBar(n.prev.None?, n.next.None?, n.prev, n.next)
  }

  /** `addDetailNav` on one page: a detail page gets a bar inserted when it
      has none and its (first) bar's buttons set; any other page loses the
      first bar it has. */
  function WithDetailNav(cat: Days, p: Page, id: PageId): (r: Page)
    ensures r == p.(navBars := r.navBars, bar := r.bar)
    ensures IsDetailPage(cat, id) ==>
      && r.navBars >= 1
      && r.bar == BarFor(cat, id)
      && (p.navBars >= 1 ==> r.navBars == p.navBars)
    ensures !IsDetailPage(cat, id) ==>
      && (p.navBars > 0 ==> r.navBars == p.navBars - 1)
      && (p.navBars == 0 ==> r == p)
  {
    if IsDetailPage(cat, id) then
      p.(navBars := if p.navBars == 0 then 1 else p.navBars, bar := BarFor(cat, id))
    else if p.navBars > 0 then
      p.(navBars := p.navBars - 1)
    else
      p
  }

  /** The page `navigateBack` leaves: its first nav bar removed and both
      animation classes dropped. */
  function Leave(p: Page): (r: Page)
    ensures r == p.(active := false, previous := false, navBars := r.navBars)
    ensures !r.active && !r.previous
    ensures p.navBars > 0 ==> r.navBars == p.navBars - 1
    ensures p.navBars <= 1 ==> r.navBars == 0
  {
    p.(navBars := if p.navBars > 0 then p.navBars - 1 else 0, active := false, previous := false)
  }

  /** `document.querySelectorAll('.page-previous').forEach(...)`: the class
      is removed from every page and nothing else changes. */
  method ClearPrevious(pages: map<PageId, Page>) returns (r: map<PageId, Page>)
    ensures r.Keys == pages.Keys
    ensures forall q :: q in r ==> !r[q].previous && r[q] == pages[q].(previous := false)
  {
    r := pages;
    var todo := pages.Keys;
    while todo != {}
      invariant todo <= pages.Keys && r.Keys == pages.Keys
      invariant forall q :: q in r ==> r[q] == if q in todo then pages[q] else pages[q].(previous := false)
      decreases todo
    {
      var q :| q in todo;
      r := r[q := r[q].(previous := false)];
      todo := todo - {q};
    }
  }

  /** `document.querySelectorAll('.detail-nav').forEach(...)`: every bar of
      every page except `keep` is removed, and nothing else changes. */
  method RemoveNavBarsExcept(pages: map<PageId, Page>, keep: PageId) returns (r: map<PageId, Page>)
    ensures r.Keys == pages.Keys
    ensures keep in pages ==> r[keep] == pages[keep]
    ensures forall q :: q in r && q != keep ==> r[q].navBars == 0 && r[q] == pages[q].(navBars := 0)
  {
    r := pages;
    var todo := pages.Keys;
    while todo != {}
      invariant todo <= pages.Keys && r.Keys == pages.Keys
      invariant forall q :: q in r ==>
        r[q] == if q == keep || q in todo then pages[q] else pages[q].(navBars := 0)
      decreases todo
    {
      var q :| q in todo;
      if q != keep {
        r := r[q := r[q].(navBars := 0)];
      }
      todo := todo - {q};
    }
  }

  // ----- Lemmas -----

  /** Repeating `addDetailNav` changes nothing more (for a page with at most
      one bar, which is every page the script produces). */
  lemma WithDetailNavIdempotent(cat: Days, p: Page, id: PageId)
    requires p.navBars <= 1
    ensures WithDetailNav(cat, WithDetailNav(cat, p, id), id) == WithDetailNav(cat, p, id)
  {
  }

  /** The handlers go to the pages the directional lookup finds, which are
      also where the titles passed to the navigation come from. */
  lemma BarButtonsMatchLinks(cat: Days, id: PageId, titles: map<PageId, string>)
    ensures BarFor(cat, id).onPrev == GetLink(cat, id, Prev, titles).id
    ensures BarFor(cat, id).onNext == GetLink(cat, id, Next, titles).id
  {
    LinkAgreesWithNeighbours(cat, id, titles);
  }

  /** The bar of the exercise at position `i` of its day: the previous button
      is hidden exactly at the first position, the next button exactly at the
      last, and otherwise they move to positions `i - 1` and `i + 1`. */
  lemma BarAtPosition(cat: Days, d: PageId, i: nat)
    requires d in cat && i < |cat[d]| && NonEmptyEntries(cat[d])
    requires ParentDayId(cat[d][i]) == Some(d)
    requires cat[d][i] !in cat[d][..i]
    ensures var list := cat[d]; var b := BarFor(cat, list[i]);
      && (b.prevHidden <==> i == 0)
      && (b.nextHidden <==> i == |list| - 1)
      && (i > 0 ==> b.onPrev == Some(list[i - 1]))
      && (i < |list| - 1 ==> b.onNext == Some(list[i + 1]))
  {
    NeighboursAt(cat, d, i);
  }
}
