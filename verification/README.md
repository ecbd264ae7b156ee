# ALMA Voleibol Viseu landing page — a Dafny model of its derivation rules

The club's public page (`App.tsx`) fetches a few tables and derives what it
draws from them with a handful of small rules; its navigation bar
(`components/Navbar.tsx`) decides what a click does. This project models those
rules as pure functions over immutable sequences and maps, with `now`, the
current page and the document's element ids passed in explicitly, and proves
what the page promises about them:

- `types.dfy` (`Types`): the `Match`, `Team`, `TeamMember` and `SiteContent`
  rows, and `Option` for values that may be `undefined`.
- `seqs.dfy` (`Seqs`): the order-preserving filter behind every
  `Array.prototype.filter` on the page, and what "subsequence" means.
- `matches.dfy` (`Matches`): the upcoming and past carousels, the next-match
  banner, the stable newest-first sort of results, and which side of a result
  is emphasised.
- `content.dfy` (`Content`): the fold of site-content rows into a map keyed by
  section, the per-section heading with its fallback to defaults, and the hero
  record with its whole-record fallback.
- `hero.dfy` (`HeroTitle`): the "looks like HTML" test on the hero title,
  `split(' ')` / `join(' ')`, and the last-word highlight.
- `teams.dfy` (`Teams`): the roster filter run when a team is opened, and the
  detail-view items built for teams.
- `navbar.dfy` (`Navbar`): the nine nav items, `handleNav`'s routing decision,
  the mobile-menu toggle and the active-item highlight.

Dates are integer millisecond timestamps. Scrolling is an abstract `Scroll`
value. The document is represented by the set of element ids it holds. On the
landing page those ids are `home`, `news`, `calendar` and `teams`. So the
"Fotos", "Parceiros" and "Loja" items do nothing there but close the menu
(`Navbar.SectionlessItemsDoNothing`).

Three behaviours of the page are easy to misread:
- The upcoming list is not sorted on the page. It keeps the order the backend
  returns, which is by date ascending (App.tsx:98). `Matches.UpcomingSoonestFirst`
  proves it is in date order given that input order.
- Both lists are capped at ten entries.
- A `hero` row replaces the default hero as a whole, so an empty title in that
  row shows as empty. The other sections fall back field by field.

## Model

| member | source | states |
|---|---|---|
| Seqs.Filter | App.tsx:121-123 | the order-preserving filter behind every `filter` call on the page: it keeps only elements that pass the test and is never longer than its input |
| Matches.Upcoming | App.tsx:121 | the upcoming list has min(10, number of matches with date >= now) entries; it is a prefix of those matches in input order; every entry is in the input and starts at or after `now` |
| Matches.UpcomingCompleteBelowLimit | App.tsx:121 | when at most ten matches are still to come, every one of them is shown |
| Matches.InsertNewestFirst | App.tsx:124 | inserting a match into a newest-first list keeps it newest-first |
| Matches.InsertAddsOne | App.tsx:124 | insertion adds exactly one copy of the match and loses nothing |
| Matches.SortNewestFirst | App.tsx:124 | the comparator `b.date - a.date` orders results non-increasing by date; the output is a permutation of the input |
| Matches.SortIsStable | App.tsx:124 | matches that share a date leave the sort in the order they entered it (the stable sort JavaScript guarantees) |
| Matches.Past | App.tsx:122-125 | the results list has min(10, number of matches with date < now) entries; it is a prefix of the stably sorted played matches; it is newest-first; every entry started before `now`; it is a sub-multiset of the input |
| Matches.PastIsMostRecent | App.tsx:122-125 | any played match left out of the results is no newer than every match shown |
| Matches.UpcomingAndPastPartition | App.tsx:121-123 | before truncation, the two filters split the matches: every match is in exactly one, their multisets add up to the input's, and nothing shown as upcoming is shown as a result |
| Matches.NextMatch | App.tsx:126 | there is a next match iff some match starts at or after `now`; it is the first such match in input order |
| Matches.UpcomingSoonestFirst | App.tsx:121-126 | with the input in date order (as the backend returns it), the upcoming list is in date order and the banner shows the soonest match to come |
| Matches.NextIsSoonest | App.tsx:126 | with the input in date order, no match still to come starts before the banner's match |
| Matches.ResultEmphasis | App.tsx:418-438 | the home name is emphasised iff both scores are present and home > guest; likewise the guest name with guest > home |
| Matches.EmphasisIsExclusive | App.tsx:420-434 | never both sides; neither side on a draw or a missing score; exactly one side when both scores are known and differ |
| Content.FoldRows | App.tsx:109-112 | the rows are stored one by one, in order, into an empty map under their section; every entry is filed under its own row's section |
| Content.FoldKeys | App.tsx:109-112 | the content map's keys are exactly the sections the rows carry |
| Content.FoldKeepsLastRow | App.tsx:109-112 | each section maps to the last row carrying it, because later rows overwrite earlier ones |
| Content.UniqueSectionsAllFound | App.tsx:109-112 | when sections are unique, every row is found under its own section |
| Content.BuildContentMap | App.tsx:108-113 | the `forEach` loop over the rows produces the fold's map |
| Content.ResolveHeading | App.tsx:39-40 | the title is the row's title when a row exists and its title is non-empty, else the default; likewise the subtitle |
| Content.ShowsHeadingBlock | App.tsx:46 | the heading block is hidden exactly when the title and the subtitle are both undefined or empty |
| Content.HeadingFollowsLastRow | App.tsx:39-40 | after the fold, a section shows the last matching row's non-empty texts and the defaults for its empty ones |
| Content.HeadingWithoutRow | App.tsx:39-40 | a section with no row, for example after a failed read, shows exactly its defaults |
| Content.PageSectionsAlwaysHeaded | App.tsx:46 | the news, calendar and teams sections always draw a heading block with a non-empty title, whatever the table holds |
| Content.CurrentHero | App.tsx:182-188 | a `hero` row supplies the hero's title, subtitle and image as they are; without one the hard-coded default is used |
| Content.HeroTitleFromRows | App.tsx:188 | the hero shows the last `hero` row's title, empty or not; the default appears only when no row has section `hero` |
| HeroTitle.FirstTagOpen | App.tsx:190 | finds the leftmost `<` followed by an ASCII letter at or after a position, or reports there is none |
| HeroTitle.IsHtml | App.tsx:190 | `isHeroHtml`: the leftmost `<` followed by a letter, then a `>` after that letter; a title it accepts holds both `<` and `>` and has at least three characters |
| HeroTitle.IsHtmlMatchesPattern | App.tsx:190 | the scan says "HTML" iff the title contains `<`, then an ASCII letter of either case, then a `>` later on |
| HeroTitle.NoAngleNoHtml | App.tsx:190 | a title without `<` is never taken for markup |
| HeroTitle.SplitOnSpace | App.tsx:199 | `split(' ')` always yields at least one piece, and no piece contains a space |
| HeroTitle.JoinWithSpace | App.tsx:204 | `join(' ')`: the result begins with the first piece, and holds a space whenever there are two or more pieces |
| HeroTitle.SplitThenJoin | App.tsx:199-204 | joining the pieces of `split(' ')` with spaces gives back the title |
| HeroTitle.SplitCount | App.tsx:199-200 | `split(' ')` yields a single piece iff the title has no space |
| HeroTitle.SplitAfterWord | App.tsx:199 | splitting "word rest" yields the word followed by the pieces of the rest |
| HeroTitle.JoinSplitsLast | App.tsx:201-204 | joining all words equals joining all but the last, then a space, then the last word |
| HeroTitle.RenderHeroTitle | App.tsx:191-208 | markup is passed through iff the title looks like HTML; a title without spaces is shown whole; otherwise the plain words, a space and the highlighted last word rebuild the title exactly, and the highlighted word has no space |
| HeroTitle.TwoWordTitle | App.tsx:191-205 | a plain title of two space-free words draws the first plain and the second highlighted |
| HeroTitle.DefaultHeroTitle | App.tsx:183-205 | the default title "ALMA VISEU" shows "ALMA" plain and "VISEU" highlighted |
| Teams.Roster | App.tsx:160 | every roster entry belongs to the team, and each member of the team appears as many times as in the fetched list |
| Teams.RosterKeepsOrder | App.tsx:160 | the roster is an order-preserving subsequence of the fetched members |
| Teams.RosterExample | App.tsx:160 | members [1 (A), 2 (B), 3 (A)] give team A the roster [1, 3] |
| Teams.TeamModalItems | App.tsx:158-168 | one detail item per team, in order, carrying the team's id, name and description and no subtitle; its image is the team's own when non-empty and the picture seeded by the team's id otherwise; its member list is exactly `Teams.Roster` of that team |
| Teams.TeamItemsAlwaysShowRoster | App.tsx:531 | a team's detail view always draws the roster block, even when the roster is empty |
| Navbar.HandleNav | components/Navbar.tsx:26-59 | admin/login/about/contacts navigate to themselves and jump to the top; any other id navigates home first and scrolls after 100 ms when off the landing page; on the landing page there is no navigation, "home" scrolls smoothly to the top, and other ids scroll to their element if it exists and otherwise do nothing |
| Navbar.DelayedScroll | components/Navbar.tsx:39-46 | the delayed callback scrolls to the element iff it exists, and otherwise to the top |
| Navbar.Navigate | App.tsx:128-133 | the app's `handleNavigate` records the requested page and leaves the mobile menu as it was |
| Navbar.Click | components/Navbar.tsx:26-59 | a click closes the menu and ends on the clicked page for page targets and on the landing page for every other id; its scroll is the one `handleNav` asks for |
| Navbar.ClickOutcome | components/Navbar.tsx:26-59 | after any click the menu is closed and hides its items; the current page becomes the clicked id for page targets and "home" for every other id |
| Navbar.MobileItems | components/Navbar.tsx:109-123 | the open mobile menu lists all nine items in order; a closed menu lists none |
| Navbar.ToggleMenu | components/Navbar.tsx:98 | the toggle negates `isOpen` and keeps the current page |
| Navbar.ToggleTwiceRestores | components/Navbar.tsx:98 | toggling twice restores the state; toggling never changes the active item |
| Navbar.ActiveItems | components/Navbar.tsx:85 | an item is active iff its id is the current page |
| Navbar.NavIdsDistinct | components/Navbar.tsx:14-24 | the nine nav item ids are pairwise distinct |
| Navbar.DistinctIdsMatchOnce | components/Navbar.tsx:81-89 | among items with distinct ids, at most one has a given id |
| Navbar.AtMostOneActive | components/Navbar.tsx:85 | at most one nav item is active on any page |
| Navbar.OnlyActive | components/Navbar.tsx:85 | a nav item whose id is the current page is the only active item |
| Navbar.ActiveAfterClick | components/Navbar.tsx:28-58 | after clicking a nav item, exactly one item is active: the clicked item if it is a page of its own, otherwise "Início" |
| Navbar.SectionlessItemsDoNothing | components/Navbar.tsx:47-57 | on the landing page, clicking photos, partners or shop neither navigates nor scrolls |

## Left out

- Fetching the tables (App.tsx:87-117) is network I/O against a hosted backend. Only the fold over the returned rows is modelled. A failed read is the same as an empty list of rows.
- Date strings are not parsed. Every date is an integer timestamp. In the source, a date string that does not parse gives `NaN`. Both `>=` and `<` are then false, so such a match falls in neither list. The model has no such value.
- Matches.ResultEmphasis: only a missing score is modelled, as `undefined`, following the optional fields in `types.ts`. If the backend sent `null` instead, JavaScript would treat it as 0 when comparing, and a lone present positive score would be emphasised.
- A site-content row whose section is `__proto__` would set the prototype of the map object in JavaScript. The model treats it like any other key.
- `stripHtml` (App.tsx:25-29) depends on the browser's HTML parser.
- Date and time formatting for the locale (App.tsx:147, 270-275, 360-366, 411-412) is locale behaviour in the browser.
- Price formatting with `toFixed(2)` (App.tsx:155) is floating-point formatting.
- The detail items for news, products and gallery pictures (App.tsx:142-157, 169-175) are not modelled. Their subtitles come from locale formatting and floating-point formatting. Only the team branch, which resolves the roster, is modelled.
- Raw HTML injection, the modal's markup, carousels, layout and styling are presentation only.
- The navbar logo (`siteContent['navbar']?.image_url`, App.tsx:216) and the calendar's background switch (App.tsx:335) are not modelled. Both are presentation choices over one map lookup.
- `scrollIntoView`, `window.scrollTo` and `setTimeout` (components/Navbar.tsx:30, 39-56) are modelled only as the `Scroll` value they would produce. The document's element ids are a parameter.
- Strings are sequences of Unicode scalar values, not UTF-16 code units. Splitting on a space and the ASCII-letter test give the same answers either way.
- `components/Footer.tsx` is static markup. `types.ts` has no behaviour; its records appear as datatypes.
