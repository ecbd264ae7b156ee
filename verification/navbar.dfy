/** The navigation bar (components/Navbar.tsx): its fixed list of items, the
    decision `handleNav` takes when an item is clicked, the mobile-menu
    toggle, and which item is drawn as active. Scrolling and timers are
    represented by the action they would perform; the document is represented
    by the set of element ids it holds. */
module Navbar {
  import opened Types
  import opened Seqs

  datatype NavItem = NavItem(id: string, caption: string)

  const NavItems: seq<NavItem> := [
    NavItem("home", "Início"),
    NavItem("news", "Notícias"),
    NavItem("calendar", "Calendário"),
    NavItem("teams", "Equipas"),
    NavItem("photos", "Fotos"),
    NavItem("partners", "Parceiros"),
    NavItem("shop", "Loja"),
    NavItem("about", "Quem Somos"),
    NavItem("contacts", "Contactos")
  ]

  const HomePage := "home"

  /** Milliseconds `handleNav` waits for the landing page to render before scrolling. */
  const RenderDelayMs: nat := 100

  /** The element ids the landing page renders (App.tsx:222, 289, 329, 460). */
  const LandingSectionIds: set<string> := {"home", "news", "calendar", "teams"}

  /** Targets handed to `onNavigate` as pages of their own. */
  predicate IsPageTarget(id: string)
  {
    id == "admin" || id == "login" || id == "about" || id == "contacts"
  }

  /** The scrolling a click causes. */
  datatype Scroll =
    | NoScroll
      /** `window.scrollTo` to the top, smoothly or at once. */
    | WindowTop(smooth: bool)
      /** Smooth `scrollIntoView` of the element with this id. */
    | IntoView(id: string)
      /** A timer that, after `delayMs`, looks the element up and scrolls to it or to the top. */
    | AfterDelay(delayMs: nat, id: string)

  /** What a click asks of the page: a page change (`onNavigate`) if any, and a scroll. */
  datatype NavEffect = NavEffect(navigateTo: Option<string>, scroll: Scroll)

  /** `handleNav(id)` on page `currentPage`, with `present` the ids in the document. */
  function HandleNav(id: string, currentPage: string, present: set<string>): (e: NavEffect)
    ensures IsPageTarget(id) ==> e == NavEffect(Some(id), WindowTop(false))
    ensures !IsPageTarget(id) && currentPage != HomePage ==>
              e == NavEffect(Some(HomePage), AfterDelay(RenderDelayMs, id))
    ensures !IsPageTarget(id) && currentPage == HomePage ==> e.navigateTo.None?
    ensures !IsPageTarget(id) && currentPage == HomePage && id == HomePage ==> e.scroll == WindowTop(true)
    ensures !IsPageTarget(id) && currentPage == HomePage && id != HomePage ==>
              e.scroll == (if id in present then IntoView(id) else NoScroll)
  {
    if IsPageTarget(id) then NavEffect(Some(id), WindowTop(false))
    else if currentPage != HomePage then NavEffect(Some(HomePage), AfterDelay(RenderDelayMs, id))
    else if id == HomePage then NavEffect(None, WindowTop(true))
    else if id in present then NavEffect(None, IntoView(id))
    else NavEffect(None, NoScroll)
  }

  /** The timer's callback, run against the document as it is after the delay. */
  function DelayedScroll(id: string, present: set<string>): (s: Scroll)
    ensures s == IntoView(id) || s == WindowTop(false)
    ensures s.IntoView? <==> id in present
  {
    if id in present then IntoView(id) else WindowTop(false)
  }

  // ---------------------------------------------------------------------------
  // State: the page the app shows and whether the mobile menu is open.
  // ---------------------------------------------------------------------------

  datatype NavState = NavState(currentPage: string, isOpen: bool)

  /** The app's `handleNavigate`: it only records the page. */
  function Navigate(s: NavState, page: string): (r: NavState)
    ensures r.currentPage == page
    ensures r.isOpen == s.isOpen
  {
    s.(currentPage := page)
  }

  datatype ClickResult = ClickResult(state: NavState, scroll: Scroll)

  /** A click on item `id`: apply the page change, if any, and close the menu. */
  function Click(s: NavState, id: string, present: set<string>): (r: ClickResult)
    ensures !r.state.isOpen
    ensures r.state.currentPage == if IsPageTarget(id) then id else HomePage
    ensures r.scroll == HandleNav(id, s.currentPage, present).scroll
  {
    var e := HandleNav(id, s.currentPage, present);
    var s' := match e.navigateTo
              case Some(page) => Navigate(s, page)
              case None => s;
    ClickResult(s'.(isOpen := false), e.scroll)
  }

  /** After any click the menu is closed, and the app is on the clicked page
      when that is a page of its own, and on the landing page otherwise. */
  lemma ClickOutcome(s: NavState, id: string, present: set<string>)
    ensures !Click(s, id, present).state.isOpen
    ensures Click(s, id, present).state.currentPage == if IsPageTarget(id) then id else HomePage
    ensures MobileItems(Click(s, id, present).state) == []
  {
  }

  /** The mobile toggle flips the menu and nothing else. */
  function ToggleMenu(s: NavState): (r: NavState)
    ensures r.isOpen == !s.isOpen
    ensures r.currentPage == s.currentPage
  {
    s.(isOpen := !s.isOpen)
  }

  /** Toggling twice restores the state, and toggling never changes which item is active. */
  lemma ToggleTwiceRestores(s: NavState)
    ensures ToggleMenu(ToggleMenu(s)) == s
    ensures ActiveItems(ToggleMenu(s).currentPage) == ActiveItems(s.currentPage)
  {
  }

  /** The items of the mobile menu, drawn only while it is open. */
  function MobileItems(s: NavState): (r: seq<NavItem>)
    ensures s.isOpen ==> r == NavItems
    ensures |r| > 0 <==> s.isOpen
  {
    if s.isOpen then NavItems else []
  }

  // ---------------------------------------------------------------------------
  // The active item.
  // ---------------------------------------------------------------------------

  function HasId(page: string): NavItem -> bool
  {
    (item: NavItem) => item.id == page
  }

  /** The items drawn in the highlight colour: those whose id is the current page. */
  function ActiveItems(currentPage: string): (r: seq<NavItem>)
    ensures forall item :: item in r <==> item in NavItems && item.id == currentPage
  {
    FilterCounts(NavItems, HasId(currentPage));
    Filter(NavItems, HasId(currentPage))
  }

  lemma NavIdsDistinct()
    ensures forall i, j :: 0 <= i < j < |NavItems| ==> NavItems[i].id != NavItems[j].id
  {
  }

  /** Among items with pairwise distinct ids, at most one carries a given id. */
  lemma {:induction false} DistinctIdsMatchOnce(items: seq<NavItem>, page: string)
    requires forall i, j :: 0 <= i < j < |items| ==> items[i].id != items[j].id
    ensures |Filter(items, HasId(page))| <= 1
    ensures |Filter(items, HasId(page))| == 1 ==> exists j :: 0 <= j < |items| && items[j].id == page
  {
    if |items| > 0 {
      var rest := items[1..];
      DistinctIdsMatchOnce(rest, page);
      assert forall j :: 0 <= j < |rest| ==> rest[j] == items[j + 1];
    }
  }

  /** At most one item is ever active. */
  lemma AtMostOneActive(currentPage: string)
    ensures |ActiveItems(currentPage)| <= 1
  {
    NavIdsDistinct();
    DistinctIdsMatchOnce(NavItems, currentPage);
  }

  /** An item whose id is the current page is the only active item. */
  lemma OnlyActive(currentPage: string, item: NavItem)
    requires item in NavItems && item.id == currentPage
    ensures ActiveItems(currentPage) == [item]
  {
    AtMostOneActive(currentPage);
    var r := ActiveItems(currentPage);
    assert item in r;
    assert r == [r[0]];
  }

  /** After clicking an item, exactly one item is active: the clicked one when it
      is a page of its own, and "Início" for every landing-page section. */
  lemma ActiveAfterClick(s: NavState, item: NavItem, present: set<string>)
    requires item in NavItems
    ensures ActiveItems(Click(s, item.id, present).state.currentPage)
         == [if IsPageTarget(item.id) then item else NavItems[0]]
  {
    ClickOutcome(s, item.id, present);
    var target := if IsPageTarget(item.id) then item else NavItems[0];
    assert NavItems[0] in NavItems;
    OnlyActive(Click(s, item.id, present).state.currentPage, target);
  }

  /** On the landing page, the "Fotos", "Parceiros" and "Loja" items lead
      nowhere: the landing page has no element with those ids. */
  lemma SectionlessItemsDoNothing(id: string)
    requires id in {"photos", "partners", "shop"}
    ensures HandleNav(id, HomePage, LandingSectionIds) == NavEffect(None, NoScroll)
  {
  }
}
