/**
 * The state-sync adapter of the tab-bar coordinator view: a local copy of the
 * coordinator's pages, one badge entry per page, and the selected page, kept in
 * step with the coordinator's page-list, current-page and badge events, plus the
 * "tap the active tab again to pop to root" gesture.
 */
module Tabbar {
  import opened Wrappers

  /** A badge label (`String?`) and the page it decorates. */
  datatype BadgeItem<Page> = BadgeItem(value: Option<string>, page: Page)

  /** One rendered tab: the page it is tagged with and the badge it shows. */
  datatype TabItem<Page> = TabItem(tag: Page, badge: Option<string>)

  /** The adapter's invariant: one badge entry per page, in the same order. */
  ghost predicate InSync<Page>(pages: seq<Page>, badges: seq<BadgeItem<Page>>)
  {
    && |badges| == |pages|
    && forall i :: 0 <= i < |pages| ==> badges[i].page == pages[i]
  }

  // ---------------------------------------------------------------------
  // Lookups
  // ---------------------------------------------------------------------

  /** The index of the first badge entry whose page is `page`, if any. */
  function BadgeIndex<Page(==)>(badges: seq<BadgeItem<Page>>, page: Page): (r: Option<nat>)
    ensures r.Some? ==> r.value < |badges| && badges[r.value].page == page
    ensures r.Some? ==> forall j :: 0 <= j < r.value ==> badges[j].page != page
    ensures r.None? ==> forall j :: 0 <= j < |badges| ==> badges[j].page != page
  {
    if |badges| == 0 then None
    else if badges[0].page == page then Some(0)
    else match BadgeIndex(badges[1..], page)
      case None => None
      case Some(i) => Some(i + 1)
  }

  /** The first badge entry for `page`, if any. */
  function Badge<Page(==)>(badges: seq<BadgeItem<Page>>, page: Page): (r: Option<BadgeItem<Page>>)
    ensures r.None? <==> forall b :: b in badges ==> b.page != page
    ensures r.Some? ==> r.value.page == page
    ensures r.Some? ==> exists i :: 0 <= i < |badges| && badges[i] == r.value
                                   && forall j :: 0 <= j < i ==> badges[j].page != page
  {
    match BadgeIndex(badges, page)
    case None => None
    case Some(i) => Some(badges[i])
  }

  /** The badge label shown on the tab of `page` (`getBadge(page:)?.value`). */
  function BadgeValue<Page(==)>(badges: seq<BadgeItem<Page>>, page: Page): (r: Option<string>)
    ensures (forall b :: b in badges ==> b.page != page) ==> r.None?
    ensures forall i :: (&& 0 <= i < |badges| && badges[i].page == page
                         && forall j :: 0 <= j < i ==> badges[j].page != page) ==> r == badges[i].value
  {
    match Badge(badges, page)
    case None => None
    case Some(b) => b.value
  }

  /**
   * While the adapter is in sync, a page has a badge entry exactly when it is
   * one of the pages, and the entry found sits at the page's first position.
   */
  lemma InSyncBadgeIndex<Page>(pages: seq<Page>, badges: seq<BadgeItem<Page>>, page: Page)
    requires InSync(pages, badges)
    ensures BadgeIndex(badges, page).Some? <==> page in pages
    ensures BadgeIndex(badges, page).Some? ==>
              var i := BadgeIndex(badges, page).value;
              i < |pages| && pages[i] == page && page !in pages[..i]
  {
  }

  // ---------------------------------------------------------------------
  // Rendering projection
  // ---------------------------------------------------------------------

  /**
   * The tabs rendered for `pages`: one per page whose position has a registered
   * child coordinator, in page order, tagged with the page and carrying its badge.
   */
  function TabItems<Page(==)>(pages: seq<Page>, badges: seq<BadgeItem<Page>>,
                              position: Page -> int, registered: set<int>): (r: seq<TabItem<Page>>)
    ensures |r| <= |pages|
    ensures forall k :: 0 <= k < |r| ==>
              && r[k].tag in pages
              && position(r[k].tag) in registered
              && r[k].badge == BadgeValue(badges, r[k].tag)
  {
    if pages == [] then []
    else
      var rest := TabItems(pages[1..], badges, position, registered);
      if position(pages[0]) in registered
      then
        var r := [TabItem(pages[0], BadgeValue(badges, pages[0]))] + rest;
        assert forall k :: 0 <= k < |rest| ==> r[k + 1] == rest[k];
        r
      else rest
  }

  /** Every page whose position is registered gets a tab. */
  lemma {:induction false} RegisteredPageRendered<Page>(pages: seq<Page>, badges: seq<BadgeItem<Page>>,
                                                        position: Page -> int, registered: set<int>, p: Page)
    requires p in pages && position(p) in registered
    ensures exists k :: 0 <= k < |TabItems(pages, badges, position, registered)|
                        && TabItems(pages, badges, position, registered)[k].tag == p
  {
    var rest := TabItems(pages[1..], badges, position, registered);
    if pages[0] == p {
      assert TabItems(pages, badges, position, registered)[0].tag == p;
    } else {
      assert p in pages[1..];
      RegisteredPageRendered(pages[1..], badges, position, registered, p);
      var k :| 0 <= k < |rest| && rest[k].tag == p;
      if position(pages[0]) in registered {
        assert TabItems(pages, badges, position, registered)[k + 1] == rest[k];
      } else {
        assert TabItems(pages, badges, position, registered)[k] == rest[k];
      }
    }
  }

  /** Rendering distributes over concatenation of page lists, so the page order is kept. */
  lemma {:induction false} TabItemsAppend<Page>(a: seq<Page>, b: seq<Page>, badges: seq<BadgeItem<Page>>,
                                                    position: Page -> int, registered: set<int>)
    ensures TabItems(a + b, badges, position, registered)
         == TabItems(a, badges, position, registered) + TabItems(b, badges, position, registered)
  {
    if a == [] {
      assert a + b == b;
    } else {
      assert (a + b)[1..] == a[1..] + b;
      TabItemsAppend(a[1..], b, badges, position, registered);
    }
  }

  /** When every position is registered, there is exactly one tab per page, in order. */
  lemma {:induction false} AllRegisteredTabItems<Page>(pages: seq<Page>, badges: seq<BadgeItem<Page>>,
                                                           position: Page -> int, registered: set<int>)
    requires forall p :: p in pages ==> position(p) in registered
    ensures |TabItems(pages, badges, position, registered)| == |pages|
    ensures forall k :: 0 <= k < |pages| ==>
              TabItems(pages, badges, position, registered)[k]
                == TabItem(pages[k], BadgeValue(badges, pages[k]))
  {
    if pages != [] {
      AllRegisteredTabItems(pages[1..], badges, position, registered);
    }
  }

  // ---------------------------------------------------------------------
  // The coordinator, as far as the adapter writes to it
  // ---------------------------------------------------------------------

  /**
   * The coordinator's side of the selection binding: its `currentPage` (the last
   * page forwarded to it) and a log of the pop-to-root requests it was sent.
   */
  class TabbarCoordinator<Page> {
    var currentPage: Page
    var popToRootRequests: nat

    constructor (currentPage: Page)
      ensures this.currentPage == currentPage && popToRootRequests == 0
    {
      this.currentPage := currentPage;
      popToRootRequests := 0;
    }
  }

  // ---------------------------------------------------------------------
  // The adapter
  // ---------------------------------------------------------------------

  class TabbarCoordinatorView<Page(==)> {
    var badges: seq<BadgeItem<Page>>
    var pages: seq<Page>
    var currentPage: Page

    ghost predicate Valid()
      reads this
    {
      InSync(pages, badges)
    }

    /** A new adapter has no pages and no badges yet. */
    constructor (currentPage: Page)
      ensures Valid()
      ensures pages == [] && badges == [] && this.currentPage == currentPage
    {
      badges := [];
      pages := [];
      this.currentPage := currentPage;
    }

    /** The page list changed: take it over and reset every badge. */
    method ReceivePages(newPages: seq<Page>)
      modifies this
      ensures pages == newPages && currentPage == old(currentPage)
      ensures Valid()
      ensures forall i :: 0 <= i < |badges| ==> badges[i].value == None
    {
      pages := newPages;
      badges := seq(|newPages|, i requires 0 <= i < |newPages| => BadgeItem(None, newPages[i]));
    }

    /** The coordinator selected a page: take it over, whether or not it is one of the pages. */
    method ReceiveCurrentPage(page: Page)
      modifies this
      ensures currentPage == page
      ensures pages == old(pages) && badges == old(badges)
      ensures old(Valid()) ==> Valid()
    {
      currentPage := page;
    }

    /**
     * A badge update for `page`: the first entry for `page` gets the new label;
     * when there is none, nothing changes.
     */
    method ReceiveBadge(value: Option<string>, page: Page)
      modifies this
      ensures pages == old(pages) && currentPage == old(currentPage)
      ensures |badges| == |old(badges)|
      ensures match BadgeIndex(old(badges), page)
              case None => badges == old(badges)
              case Some(i) =>
                && badges[i] == BadgeItem(value, page)
                && forall j :: 0 <= j < |badges| && j != i ==> badges[j] == old(badges)[j]
      ensures old(Valid()) ==> Valid()
    {
      match BadgeIndex(badges, page)
      case None =>
      case Some(index) =>
        badges := badges[index := badges[index].(value := value)];
    }

    /**
     * The user tapped `tappedTab`. `viewModel` is the weakly held coordinator, absent
     * once it is gone. Re-tapping the selected tab requests a pop to root; the tap is
     * always forwarded to the coordinator. The adapter's own state does not change:
     * it follows the coordinator's echo through ReceiveCurrentPage.
     */
    method SetTabSelection(viewModel: Option<TabbarCoordinator<Page>>, tappedTab: Page)
      modifies if viewModel.Some? then {viewModel.value} else {}
      ensures pages == old(pages) && badges == old(badges) && currentPage == old(currentPage)
      ensures viewModel.Some? ==> viewModel.value.currentPage == tappedTab
      ensures viewModel.Some? ==>
                viewModel.value.popToRootRequests
                  == old(viewModel.value.popToRootRequests) + (if tappedTab == currentPage then 1 else 0)
    {
      if tappedTab == currentPage {
        if viewModel.Some? {
          viewModel.value.popToRootRequests := viewModel.value.popToRootRequests + 1;
        }
      }
      if viewModel.Some? {
        viewModel.value.currentPage := tappedTab;
      }
    }
  }

  /** Home and Search, then a badge, then a third page, then two taps. */
  method BadgeScenario()
  {
    var view := new TabbarCoordinatorView<string>("Home");
    view.ReceivePages(["Home", "Search"]);
    view.ReceiveBadge(Some("3"), "Search");
    assert view.badges == [BadgeItem(None, "Home"), BadgeItem(Some("3"), "Search")];
    view.ReceiveBadge(Some("9"), "Profile");
    assert view.badges == [BadgeItem(None, "Home"), BadgeItem(Some("3"), "Search")];
    view.ReceivePages(["Home", "Search", "Profile"]);
    assert view.badges == [BadgeItem(None, "Home"), BadgeItem(None, "Search"), BadgeItem(None, "Profile")];

    var coordinator := new TabbarCoordinator<string>("Home");
    view.SetTabSelection(Some(coordinator), "Home");
    assert coordinator.popToRootRequests == 1 && view.currentPage == "Home";
    view.SetTabSelection(Some(coordinator), "Search");
    assert coordinator.popToRootRequests == 1 && coordinator.currentPage == "Search";
    assert view.currentPage == "Home";
    view.ReceiveCurrentPage(coordinator.currentPage);
    assert view.currentPage == "Search";
  }

  /** Home, Search and Profile at positions 0, 1, 2; only 0 and 1 have a child coordinator. */
  method RenderScenario()
  {
    var position := (p: string) => if p == "Home" then 0 else if p == "Search" then 1 else 2;
    var pages := ["Home", "Search", "Profile"];
    var tabs := TabItems(pages, [], position, {0, 1});
    assert forall k :: 0 <= k < |tabs| ==> tabs[k].tag != "Profile";
    RegisteredPageRendered(pages, [], position, {0, 1}, "Search");
    assert exists k :: 0 <= k < |tabs| && tabs[k].tag == "Search";
  }
}
