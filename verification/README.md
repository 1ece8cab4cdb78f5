# Tab-bar coordinator view: state-sync adapter

A Dafny model of the logic inside `TabbarCoordinatorView` of SUICoordinator. The
view keeps a local copy of its `TabbarCoordinator`'s state: the ordered list of
pages, one badge entry per page, and the selected page. It updates that copy when
the coordinator publishes a new page list, a new current page or a badge update.
It forwards tab taps back to the coordinator. Tapping the tab that is already
selected also asks the coordinator to pop that tab's navigation stack to its root.
It renders one tab for each page whose position has a registered child coordinator.

- `wrappers.dfy` (module `Wrappers`): `Option`, the model of Swift's optionals.
- `tabbar.dfy` (module `Tabbar`):
  - `BadgeItem` is the `(value, page)` badge pair. `TabItem` is a rendered tab, reduced to its tag and badge.
  - `BadgeIndex`, `Badge` and `BadgeValue` are the pure lookups.
  - `TabItems` is the page filter of the renderer.
  - Class `TabbarCoordinatorView` holds the three `@State` fields: `pages` and `badges` as sequences, `currentPage` as a plain `Page` field. It has the event handlers as methods. `Valid()` is the invariant that `badges` runs parallel to `pages`.
  - Class `TabbarCoordinator` keeps only what the adapter writes to the coordinator: its `currentPage` (the last forwarded tab) and a count of the pop-to-root requests it has been sent.

Pages are a type parameter with equality. A page's `position` is a function
argument `position: Page -> int`. The coordinator's `getCoordinator(with:)` is
reduced to the set `registered` of positions that have a child coordinator.

## Model

| member | source | states |
|---|---|---|
| `Tabbar.BadgeIndex` | Sources/SUICoordinator/Tabbar/TabbarCoordinatorView.swift:87-89 | the result is the least index whose entry has the given page; it is none exactly when no entry has that page |
| `Tabbar.Badge` | Sources/SUICoordinator/Tabbar/TabbarCoordinatorView.swift:80-85 | none exactly when no entry has the page; otherwise the first entry with that page |
| `Tabbar.BadgeValue` | Sources/SUICoordinator/Tabbar/TabbarCoordinatorView.swift:75 | the badge label shown on a tab: none when no entry has the page, otherwise the value of the first entry whose page is that page |
| `Tabbar.InSyncBadgeIndex` | Sources/SUICoordinator/Tabbar/TabbarCoordinatorView.swift:49-51 | while badges run parallel to pages, a page has a badge entry iff it is one of the pages, found at its first position in `pages` |
| `Tabbar.TabItems` | Sources/SUICoordinator/Tabbar/TabbarCoordinatorView.swift:67-77 | at most as many tabs as pages; every tab's page is one of the pages and its position is registered (a page without a child coordinator gets no tab, not a placeholder), and its badge is the page's looked-up badge value |
| `Tabbar.RegisteredPageRendered` | Sources/SUICoordinator/Tabbar/TabbarCoordinatorView.swift:67-77 | every page whose position is registered gets a tab tagged with that page |
| `Tabbar.TabItemsAppend` | Sources/SUICoordinator/Tabbar/TabbarCoordinatorView.swift:46-47 | the tabs of a concatenated page list are the concatenated tabs, so tabs keep the order of `pages` |
| `Tabbar.AllRegisteredTabItems` | Sources/SUICoordinator/Tabbar/TabbarCoordinatorView.swift:67-77 | when every position is registered, tab k is page k with its badge value |
| `Tabbar.TabbarCoordinatorView.constructor` | Sources/SUICoordinator/Tabbar/TabbarCoordinatorView.swift:36-39 | a new view has no pages, no badges, the given current page, and is in sync |
| `Tabbar.TabbarCoordinatorView.ReceivePages` | Sources/SUICoordinator/Tabbar/TabbarCoordinatorView.swift:49-52 | `pages` is the new list; badges are rebuilt parallel to it with every value unset, whatever they were; the current page is kept |
| `Tabbar.TabbarCoordinatorView.ReceiveCurrentPage` | Sources/SUICoordinator/Tabbar/TabbarCoordinatorView.swift:53-55 | the current page becomes the emitted page even if it is not among the pages; pages and badges are unchanged; the invariant is kept |
| `Tabbar.TabbarCoordinatorView.ReceiveBadge` | Sources/SUICoordinator/Tabbar/TabbarCoordinatorView.swift:56-58 | with a match, exactly the first entry for the page gets the new value and every other entry is unchanged; without a match, nothing changes; pages and current page are unchanged; the invariant is kept |
| `Tabbar.TabbarCoordinatorView.SetTabSelection` | Sources/SUICoordinator/Tabbar/TabbarCoordinatorView.swift:95-104 | with the coordinator present: exactly one pop-to-root request iff the tapped tab is the current page, and the coordinator's current page becomes the tapped tab; the adapter's own pages, badges and current page never change; with the coordinator gone nothing changes |

`BadgeScenario` in `tabbar.dfy` is a client that replays a badge update on a
two-page list, a badge update for an unknown page, a page-list change to three
pages, a re-tap and a tap on another tab. It shows that the contracts above are
enough to derive each resulting state. `RenderScenario` renders three pages of
which only two have a child coordinator and derives that the third gets no tab.

## Left out

- SwiftUI rendering (`TabView`, `ForEach`, `Label`, `AnyView`, `.tabItem`, `.badge`, `.tag`): only which pages get a tab, and the tag and badge of each, are modelled (`TabItems`); titles, icons and the child view from `getView()` are not.
- Combine subscriptions (`onReceive` on `$pages`, `$currentPage`, `setBadge`): each handler is a plain method call; delivery order and threading are not modelled.
- The `Task(priority: .high) { await viewModel?.popToRoot() }` is modelled only as one recorded pop-to-root request on the coordinator; its asynchronous execution, timing and effect on the navigation stack are not.
- `TabbarCoordinator` itself (`popToRoot`, `getCoordinator(with:)`, `getView()`, its publishers) is not part of this model; `getCoordinator(with:)` is the set `registered` of positions.
- `@StateObject`/`@State` lifecycle and weak-reference nullification: the weakly captured coordinator is an `Option` argument of `SetTabSelection`, absent once it is gone.
- The binding's getter returns the `currentPage` field unchanged and has no member of its own.
- Page `id`, `title` and `icon` are not modelled; pages are compared by equality only.
- Repeated page ids in `ForEach(pages, id: \.id …)` are not modelled: a page listed twice gets two tabs in `TabItems`.
