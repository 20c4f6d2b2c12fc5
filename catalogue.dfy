/** The page catalogue: the constant map from each day page to its ordered
    exercise pages, the derivation of a page's day from its id, and the
    previous/next lookup among the exercises of one day. */
module Catalogue {

  import opened Wrappers
  import opened Strings

  type PageId = string

  /** A map from a day page to the ordered list of its exercise pages. */
  type Days = map<PageId, seq<PageId>>

  /** The ids `page-<day>-<stem>1` ... `page-<day>-<stem>n`, the shape of
      every list of the shipped catalogue. */
  function Numbered(day: string, stem: string, n: nat): (list: seq<PageId>)
    ensures |list| == n
  {
    seq(n, i requires 0 <= i < n => "page-" + day + "-" + stem + NatToString(i + 1))
  }

  /** The catalogue the script ships with, one list per day. */
  const DayExerciseMap: Days := map[
    "page-monday" := MondayExercises,
    "page-tuesday" := TuesdayExercises,
    "page-wednesday" := WednesdayExercises,
    "page-thursday" := ThursdayExercises,
    "page-friday" := FridayExercises,
    "page-saturday" := SaturdayExercises,
    "page-protips" := ProTips
  ]

  const MondayExercises: seq<PageId> := Numbered("monday", "ex", 20)
  const TuesdayExercises: seq<PageId> := Numbered("tuesday", "ex", 3)
  const WednesdayExercises: seq<PageId> := Numbered("wednesday", "ex", 3)
  const ThursdayExercises: seq<PageId> := Numbered("thursday", "ex", 1)
  const FridayExercises: seq<PageId> := Numbered("friday", "ex", 1)
  const SaturdayExercises: seq<PageId> := Numbered("saturday", "ex", 1)
  const ProTips: seq<PageId> := Numbered("tip", "", 3)

  /** The day a page belongs to: `page-` followed by the second dash-separated
      component of its id. There is one exactly when the id contains a dash. */
  function ParentDayId(id: PageId): (r: Option<PageId>)
    ensures r.Some? <==> '-' in id
    ensures r.Some? ==> "page-" <= r.value
  {
    SplitHasTwoParts(id, '-');
    var parts := Split(id, '-');
    if |parts| >= 2 then Some("page-" + parts[1]) else None
  }

  /** The key the script looks the day up under: a missing day is `null`,
      which an object property lookup turns into the key "null". No derived
      day can be mistaken for it. */
  function DayKey(id: PageId): (k: PageId)
    ensures k == "null" <==> ParentDayId(id).None?
    ensures k != "null" ==> ParentDayId(id) == Some(k)
  {
    match ParentDayId(id)
    case Some(d) => assert d[0] == 'p'; d
    case None => "null"
  }

  /** `Array.prototype.indexOf`: the first position of `x`, or -1. */
  function IndexOf(list: seq<PageId>, x: PageId): (k: int)
    ensures -1 <= k < |list|
    ensures k == -1 <==> x !in list
    ensures k >= 0 ==> list[k] == x && x !in list[..k]
    decreases |list|
  {
    if |list| == 0 then -1
    else if list[0] == x then 0
    else
      var k' := IndexOf(list[1..], x);
      if k' == -1 then -1 else k' + 1
  }

  /** No entry of any list is the empty string. */
  ghost predicate NonEmptyEntries(list: seq<PageId>)
  {
    forall j :: 0 <= j < |list| ==> list[j] != ""
  }

  /** `list[i] || null`: an entry is found only inside the list and is never
      the empty (falsy) string; in a list without empty entries every
      position inside it gives its entry. */
  function Entry(list: seq<PageId>, i: int): (e: Option<PageId>)
    ensures e.Some? ==> 0 <= i < |list| && e.value == list[i] && e.value != ""
    ensures NonEmptyEntries(list) && 0 <= i < |list| ==> e == Some(list[i])
  {
    if 0 <= i < |list| && list[i] != "" then Some(list[i]) else None
  }

  /** The previous and next exercise of a page. */
  datatype Neighbours = Neighbours(prev: Option<PageId>, next: Option<PageId>)

  /** `getNavExercise(id)` called without a direction. Both neighbours come
      from the list of the page's own day, and a previous one exists only
      for a page that is itself listed there. */
  function GetNeighbours(cat: Days, id: PageId): (n: Neighbours)
    ensures n.prev.Some? ==> DayKey(id) in cat && id in cat[DayKey(id)] && n.prev.value in cat[DayKey(id)]
    ensures n.next.Some? ==> DayKey(id) in cat && n.next.value in cat[DayKey(id)]
  {
    var key := DayKey(id);
    if key !in cat then Neighbours(None, None)
    else
      var list := cat[key];
      var k := IndexOf(list, id);
      Neighbours(Entry(list, k - 1), Entry(list, k + 1))
  }

  datatype Direction = Prev | Next

  /** A neighbour together with the display title found for it. */
  datatype Link = Link(id: Option<PageId>, title: Option<string>)

  /** The title declared by the element whose `data-target` is the given
      neighbour; a missing neighbour is written into the selector as "null".
      A title is found exactly when some element declares that target. */
  function TitleOf(titles: map<PageId, string>, target: Option<PageId>): (t: Option<string>)
    ensures t.Some? ==> t.value in titles.Values
    ensures t.Some? <==> (if target.Some? then target.value else "null") in titles
  {
    var attr := match target case Some(t) => t case None => "null";
    if attr in titles then Some(titles[attr]) else None
  }

  /** `getNavExercise(id, 'prev')` and `getNavExercise(id, 'next')`: a page
      whose day is not in the catalogue gets nothing at all; otherwise the
      neighbour comes from the day's own list and the title is the one found
      for it. */
  function GetLink(cat: Days, id: PageId, dir: Direction, titles: map<PageId, string>): (l: Link)
    ensures DayKey(id) !in cat ==> l == Link(None, None)
    ensures DayKey(id) in cat ==> l.title == TitleOf(titles, l.id)
    ensures l.id.Some? ==> DayKey(id) in cat && l.id.value in cat[DayKey(id)]
  {
    var key := DayKey(id);
    if key !in cat then Link(None, None)
    else
      var list := cat[key];
      var k := IndexOf(list, id);
      var target := if dir == Next then Entry(list, k + 1) else Entry(list, k - 1);
      Link(target, TitleOf(titles, target))
  }

  /** A detail page is one whose derived day is in the catalogue and whose
      day lists it; the "null" key of a page without a day never makes one. */
  predicate IsDetailPage(cat: Days, id: PageId)
    ensures IsDetailPage(cat, id) <==> DayKey(id) != "null" && DayKey(id) in cat && id in cat[DayKey(id)]
  {
    match ParentDayId(id)
    case Some(d) => d in cat && id in cat[d]
    case None => false
  }

  // ----- Lemmas -----

  /** For an id `a-d` or `a-d-...` whose first two components are `a` and
      `d`, the day is `page-d`, whatever `a` is. */
  lemma ParentDayIdOf(a: string, d: string, tail: string)
    requires '-' !in a && '-' !in d
    requires tail == [] || tail[0] == '-'
    ensures ParentDayId(a + "-" + d + tail) == Some("page-" + d)
  {
    var id := a + "-" + d + tail;
    assert id == a + ['-'] + (d + tail);
    SplitAtFirst(a, '-', d + tail);
    if tail == [] {
      assert d + tail == d;
      SplitWithoutSep(d, '-');
    } else {
      assert d + tail == d + ['-'] + tail[1..];
      SplitAtFirst(d, '-', tail[1..]);
    }
  }

  /** The first position of an entry is where it stands when it does not
      occur earlier. */
  lemma IndexOfFirst(list: seq<PageId>, i: nat)
    requires i < |list| && list[i] !in list[..i]
    ensures IndexOf(list, list[i]) == i
  {
    assert list[i] in list;
  }

  /** The neighbours of the exercise at position `i` of its day's list are
      the entries at `i - 1` and `i + 1`, and nothing past either end. */
  lemma {:induction false} NeighboursAt(cat: Days, d: PageId, i: nat)
    requires d in cat && i < |cat[d]| && NonEmptyEntries(cat[d])
    requires ParentDayId(cat[d][i]) == Some(d)
    requires cat[d][i] !in cat[d][..i]
    ensures var list := cat[d];
      GetNeighbours(cat, list[i]) ==
        Neighbours(if i > 0 then Some(list[i - 1]) else None,
                   if i + 1 < |list| then Some(list[i + 1]) else None)
  {
    IndexOfFirst(cat[d], i);
  }

  /** A page whose derived day is missing from the catalogue has no
      neighbour in either direction, finds no title whatever the document
      declares, and is not a detail page. */
  lemma NoDayNoNeighbours(cat: Days, id: PageId, dir: Direction, titles: map<PageId, string>)
    requires DayKey(id) !in cat
    ensures GetNeighbours(cat, id) == Neighbours(None, None)
    ensures GetLink(cat, id, dir, titles) == Link(None, None)
    ensures !IsDetailPage(cat, id)
  {
  }

  /** The directional lookup finds the same neighbour as the undirected one,
      in both directions, with the title declared for it; when there is no
      neighbour but the day is known, the title is whatever is declared for
      the target "null". */
  lemma LinkAgreesWithNeighbours(cat: Days, id: PageId, titles: map<PageId, string>)
    ensures GetLink(cat, id, Next, titles).id == GetNeighbours(cat, id).next
    ensures GetLink(cat, id, Prev, titles).id == GetNeighbours(cat, id).prev
    ensures forall t :: GetNeighbours(cat, id).next == Some(t) ==>
      GetLink(cat, id, Next, titles).title == (if t in titles then Some(titles[t]) else None)
    ensures forall t :: GetNeighbours(cat, id).prev == Some(t) ==>
      GetLink(cat, id, Prev, titles).title == (if t in titles then Some(titles[t]) else None)
    ensures DayKey(id) in cat && GetNeighbours(cat, id).next.None? ==>
      GetLink(cat, id, Next, titles).title == (if "null" in titles then Some(titles["null"]) else None)
    ensures DayKey(id) in cat && GetNeighbours(cat, id).prev.None? ==>
      GetLink(cat, id, Prev, titles).title == (if "null" in titles then Some(titles["null"]) else None)
  {
  }

  /** Whether `a-d...` is a detail page depends only on the list of `page-d`. */
  lemma DetailPageIffListed(cat: Days, a: string, d: string, tail: string)
    requires '-' !in a && '-' !in d
    requires tail == [] || tail[0] == '-'
    ensures var id := a + "-" + d + tail;
      IsDetailPage(cat, id) <==> ("page-" + d) in cat && id in cat["page-" + d]
  {
    ParentDayIdOf(a, d, tail);
  }

  /** A detail page is always found in its own day's list, so both its
      neighbours come from that list. */
  lemma DetailPageIsIndexed(cat: Days, id: PageId)
    requires IsDetailPage(cat, id)
    ensures DayKey(id) in cat && 0 <= IndexOf(cat[DayKey(id)], id)
  {
  }

  /** A page that derives a listed day but is not in that day's list (a day
      page itself, say) gets index -1 from the lookup, so the undirected form
      would offer the day's first exercise as "next"; it is not a detail page,
      so `addDetailNav` never asks. */
  lemma UnlistedPageSeesFirstAsNext(cat: Days, id: PageId)
    requires DayKey(id) in cat && id !in cat[DayKey(id)]
    ensures GetNeighbours(cat, id) == Neighbours(None, Entry(cat[DayKey(id)], 0))
    ensures !IsDetailPage(cat, id)
  {
  }

  /** Every id of a numbered list derives the list's day, is not empty, and
      occurs once. */
  lemma NumberedEntry(day: string, stem: string, n: nat, i: nat)
    requires '-' !in day && i < n
    ensures var list := Numbered(day, stem, n);
      && ParentDayId(list[i]) == Some("page-" + day)
      && list[i] != ""
      && list[i] !in list[..i]
  {
    var list := Numbered(day, stem, n);
    var prefix := "page-" + day + "-" + stem;
    var tail := "-" + stem + NatToString(i + 1);
    assert list[i] == "page" + "-" + day + tail;
    ParentDayIdOf("page", day, tail);
    forall j | 0 <= j < i
      ensures list[j] != list[i]
    {
      if list[j] == list[i] {
        assert list[j] == prefix + NatToString(j + 1);
        assert list[i] == prefix + NatToString(i + 1);
        assert list[j][|prefix|..] == NatToString(j + 1);
        assert list[i][|prefix|..] == NatToString(i + 1);
        NatToStringInjective(j + 1, i + 1);
      }
    }
    assert list[i] !in list[..i];
  }

  /** In a catalogue where the list of `page-<day>` is a numbered list, the
      exercise at position `i` has the entries at `i - 1` and `i + 1` as
      neighbours, nothing past either end, and is a detail page. */
  lemma NumberedNeighbours(cat: Days, day: string, stem: string, n: nat, i: nat)
    requires '-' !in day && i < n
    requires "page-" + day in cat && cat["page-" + day] == Numbered(day, stem, n)
    ensures var list := cat["page-" + day];
      && GetNeighbours(cat, list[i]) ==
           Neighbours(if i > 0 then Some(list[i - 1]) else None,
                      if i + 1 < n then Some(list[i + 1]) else None)
      && IsDetailPage(cat, list[i])
  {
    var d := "page-" + day;
    var list := cat[d];
    forall j | 0 <= j < n
      ensures list[j] != ""
    {
      NumberedEntry(day, stem, n, j);
    }
    NumberedEntry(day, stem, n, i);
    NeighboursAt(cat, d, i);
  }
}

/** Facts about the catalogue the script ships with. */
module ShippedCatalogue {

  import opened Wrappers
  import opened Strings
  import opened Catalogue

  /** The lists the script writes out: `page-monday-ex1` ... `page-monday-ex20`,
      three exercises for Tuesday and for Wednesday, one for each of Thursday,
      Friday and Saturday, and `page-tip-1` ... `page-tip-3`. */
  lemma ListsAsWritten()
    ensures |MondayExercises| == 20 &&
      forall i :: 0 <= i < 20 ==> MondayExercises[i] == "page-monday-ex" + NatToString(i + 1)
    ensures |TuesdayExercises| == 3 &&
      forall i :: 0 <= i < 3 ==> TuesdayExercises[i] == "page-tuesday-ex" + NatToString(i + 1)
    ensures |WednesdayExercises| == 3 &&
      forall i :: 0 <= i < 3 ==> WednesdayExercises[i] == "page-wednesday-ex" + NatToString(i + 1)
    ensures ThursdayExercises == ["page-thursday-ex1"]
    ensures FridayExercises == ["page-friday-ex1"]
    ensures SaturdayExercises == ["page-saturday-ex1"]
    ensures |ProTips| == 3 && forall i :: 0 <= i < 3 ==> ProTips[i] == "page-tip-" + NatToString(i + 1)
  {
    assert "page-" + "monday" + "-" + "ex" == "page-monday-ex";
    assert "page-" + "tuesday" + "-" + "ex" == "page-tuesday-ex";
    assert "page-" + "wednesday" + "-" + "ex" == "page-wednesday-ex";
    assert "page-" + "tip" + "-" + "" == "page-tip-";
    assert NatToString(1) == "1";
    assert ThursdayExercises[0] == "page-" + "thursday" + "-" + "ex" + "1";
    assert "page-" + "thursday" + "-" + "ex" + "1" == "page-thursday-ex1";
    assert FridayExercises[0] == "page-" + "friday" + "-" + "ex" + "1";
    assert "page-" + "friday" + "-" + "ex" + "1" == "page-friday-ex1";
    assert SaturdayExercises[0] == "page-" + "saturday" + "-" + "ex" + "1";
    assert "page-" + "saturday" + "-" + "ex" + "1" == "page-saturday-ex1";
  }

  /** On every exercise page of the six day lists, the bar links the entries
      just before and just after it in its own day's list, and the page counts
      as a detail page. */
  lemma ShippedExerciseNeighbours(d: PageId, i: nat)
    requires d in DayExerciseMap && d != "page-protips" && i < |DayExerciseMap[d]|
    ensures var list := DayExerciseMap[d];
      && GetNeighbours(DayExerciseMap, list[i]) ==
           Neighbours(if i > 0 then Some(list[i - 1]) else None,
                      if i + 1 < |list| then Some(list[i + 1]) else None)
      && IsDetailPage(DayExerciseMap, list[i])
  {
    if d == "page-monday" {
      assert "page-" + "monday" == d;
      NumberedNeighbours(DayExerciseMap, "monday", "ex", 20, i);
    } else if d == "page-tuesday" {
      assert "page-" + "tuesday" == d;
      NumberedNeighbours(DayExerciseMap, "tuesday", "ex", 3, i);
    } else if d == "page-wednesday" {
      assert "page-" + "wednesday" == d;
      NumberedNeighbours(DayExerciseMap, "wednesday", "ex", 3, i);
    } else if d == "page-thursday" {
      assert "page-" + "thursday" == d;
      NumberedNeighbours(DayExerciseMap, "thursday", "ex", 1, i);
    } else if d == "page-friday" {
      assert "page-" + "friday" == d;
      NumberedNeighbours(DayExerciseMap, "friday", "ex", 1, i);
    } else {
      assert d == "page-saturday";
      assert "page-" + "saturday" == d;
      NumberedNeighbours(DayExerciseMap, "saturday", "ex", 1, i);
    }
  }

  /** The tip pages are listed under `page-protips`, but their id names the
      parent `page-tip`, which is not a key of the map: they never count as
      detail pages and never get a bar. */
  lemma TipPagesAreNotDetailPages(i: nat)
    requires i < |ProTips|
    ensures ParentDayId(ProTips[i]) == Some("page-tip")
    ensures GetNeighbours(DayExerciseMap, ProTips[i]) == Neighbours(None, None)
    ensures !IsDetailPage(DayExerciseMap, ProTips[i])
  {
    NumberedEntry("tip", "", 3, i);
    assert "page-" + "tip" == "page-tip";
    assert "page-tip" !in DayExerciseMap;
    NoDayNoNeighbours(DayExerciseMap, ProTips[i], Next, map[]);
  }
}
