# Benefit-site search and favorites widget, modelled in Dafny

The widget is one browser script. You type a query, it waits for a quiet
period, asks a discovery API for matching benefit sites and shows them as
cards. Any card can be pinned as a favorite. Favorites persist. Clearing the
query shows them again, but a query of only whitespace still sends a search,
whose response replaces them with results. This project models the logic
under the DOM and network calls:

- `Sites` (`sites.dfy`): site records, the four-field projection kept as a
  favorite (`serialize`/`unserialize`), and the display fields a card derives
  from its record: category text joined with ", ", first image URL or `''`,
  the `no-image` flag, the `fi.epassi://merchantinfo/{id}` deep link and the
  `favorited` flag.
- `Favorites` (`favorites.dfy`): what a toggle does to the favorites list, as
  the value `Toggled`. Lemmas cover id uniqueness, order, and membership after
  one and two toggles.
- `Render` (`render.dfy`): the card lists `handleSearchResult` and
  `renderFavorites` build. Each is real cards followed by exactly ten
  placeholders; the favorites list shows only the empty-state message when
  there are no favorites.
- `Debounce` (`debounce.dfy`): `debounce` and `debounceImmediate` as state
  machines over a virtual clock. `Call(t)` is the wrapped function being
  called at time t. `Tick(t)` is the clock reaching t. Trace lemmas show the
  trailing-edge machine fires only a full wait after the latest call and at
  most once per burst, however calls and readings interleave, and the leading-edge
  machine runs exactly when the previous call is at least a window earlier.
- `Widget` (`page.dfy`): class `Page` holds the module-level state: the
  favorites list, its persisted copy, the two views with their visibility,
  the search box value and the search debouncer. Its methods are the
  handlers, each proved against the functions above. `Walkthrough` is a
  client that follows one session end to end: empty state, a "pizza" search,
  two results, then favoriting site "42".
- `Text` (`text.dfy`): `String.prototype.trim` over the ECMAScript
  whitespace and line-terminator characters.

Behaviour of the code worth knowing:

- The input handler trims the query, but the debounced search reads the box
  untrimmed when it fires (`js/script.js:25`). `performSearch` skips only the
  exact empty string. So a box holding only whitespace shows the favorites,
  still sends a search for that whitespace, and the response hides the
  favorites again (`Widget.WhitespaceQueryIsSent`).
- There is no separate idempotent "add". Toggling is the only mutation, so
  there is no add-twice property to state.
- Toggling a placeholder card is not a no-op in the code: it dereferences the
  missing record. `Toggle` requires a card bound to a record.
- The stored list is parsed without any error handling
  (`js/script.js:4`). The model takes the already-parsed list as the
  constructor's argument.

## Model

| member | source | states |
|---|---|---|
| `Text.Trim` | js/script.js:16 | the trimmed query neither starts nor ends with whitespace, is no longer than the input, and is empty exactly when the input is all whitespace |
| `Text.TrimIsSlice` | js/script.js:16 | the trimmed query is a contiguous piece of the input, and what is cut from either end is all whitespace |
| `Sites.Join` | js/script.js:112 | `join(', ')`: nothing gives the empty string, one part gives that part, and otherwise the text begins with the first part, with ", " between each two parts (its inverse is `Split`, see `SplitJoin`) |
| `Sites.CategoriesText` | js/script.js:112 | the category texts mapped out and joined: empty for no categories, the one text for one, and beginning with the first text otherwise |
| `Sites.FirstImageUrl` | js/script.js:114 | the optional chain with `?? ''`: the first image's URL of the first image set, or the empty string when there is no set or the first set has no image |
| `Sites.HasId` | js/script.js:119 | `favorites.some(...)`: holds exactly when the id is among the ids of the list's entries |
| `Sites.MakeCard` | js/script.js:106-122 | no record gives a placeholder; a record gives a card bound to it showing its name, its category texts joined by ", ", the first image URL of the first image set or '' when either level is missing, `no-image` exactly when that URL is empty, a link whose target is the id, and `favorited` exactly when some favorite has that id |
| `Sites.NoImageExactly` | js/script.js:114-118 | a card has `no-image` exactly when its record has no image set, an empty first set, or an empty first URL |
| `Sites.SplitJoin` | js/script.js:112 | joining strings with ", " and splitting again gives the strings back when there is at least one and none contains the separator |
| `Sites.CategoriesTextRoundTrip` | js/script.js:112 | the category names can be recovered from a card's category text under the same conditions |
| `Sites.DeepLink` | js/script.js:113 | the link is the fixed `fi.epassi://merchantinfo/` prefix followed by exactly the id |
| `Sites.DeepLinkRoundTrip` | js/script.js:113 | the id can be read back from its link, so different ids never share a link |
| `Sites.Serialize` | js/script.js:134-140 | a placeholder serializes to null; a site card serializes to a record holding exactly the id, name, categories and image sets of its bound record and nothing else |
| `Sites.Unserialize` | js/script.js:141-146 | null restores a placeholder; an entry restores a card bound to that entry |
| `Sites.SerializeUnserialize` | js/script.js:134-146 | serializing a card restored from a persisted entry (or null) gives the entry (or null) back |
| `Sites.UnserializeSerialize` | js/script.js:134-146 | a card restored from a serialized card shows exactly what the original showed |
| `Favorites.FirstIndex` | js/script.js:148-151 | the entry the loop stops at is the first one with the clicked id |
| `Favorites.Entry` | js/script.js:158-159 | the appended entry holds the record's id, name, categories and image sets and no other field |
| `Favorites.Toggled` | js/script.js:147-165 | what toggleFavorite does to the list: with the id present, the first entry with the id is spliced out and the entries before and after it are kept in order; otherwise the record's projection is appended after the unchanged list |
| `Favorites.RemovalKeepsOthers` | js/script.js:148-154 | with unique ids, toggling a favorited record removes exactly its entry and keeps every other entry in its original order (equal to the list filtered by id) |
| `Favorites.ToggledUnique` | js/script.js:147-165 | if ids are unique before a toggle they are unique after it |
| `Favorites.ToggledMembership` | js/script.js:147-165 | with unique ids a toggle flips the clicked id's membership and leaves every other id's membership unchanged |
| `Favorites.ToggleTwice` | js/script.js:147-165 | two toggles of one record restore its membership, and restore the list itself when the record was not a favorite |
| `Favorites.DuplicateSurvivesToggle` | js/script.js:148-151 | on a list with a duplicated id, toggling that id leaves it favorited, so uniqueness is what the toggle relies on |
| `Render.HasCardWithId` | js/script.js:160 | the `data-id` lookup: holds exactly when the id is among the ids of the view's site cards |
| `Render.ResultCards` | js/script.js:53-61 | the results view holds one card per site in response order, bound to it, then exactly ten placeholders |
| `Render.FavoriteCard` | js/script.js:75-76 | a favorites-view card is bound to its entry and marked favorited |
| `Render.FavoriteCardUnmarked` | js/script.js:75-76 | setting the mark explicitly changes nothing, because a restored entry already finds its id in the list |
| `Render.FavoriteCards` | js/script.js:69-83 | no cards for an empty list; otherwise one favorited card per entry in list order, then exactly ten placeholders |
| `Render.RenderCounts` | js/script.js:54-82 | a rendered view holds exactly one site card per record and exactly ten placeholders |
| `Debounce.TrailingStep` | js/script.js:199-204 | one event of `debounce`: a call replaces any pending timer by one due a wait after it and runs nothing; a clock reading runs the function exactly when a timer is pending and due, and clears it |
| `Debounce.TrailingRun` | js/script.js:199-204 | the events applied in order through `TrailingStep`: at most one run per event |
| `Debounce.RunEndsInCall` | js/script.js:199-204 | whatever came before, a trace ending in a call runs nothing at that call and leaves one timer, due a wait after it |
| `Debounce.RunCalls` | js/script.js:199-204 | a run of calls fires nothing and leaves one timer, due a full wait after the last call |
| `Debounce.RunTicks` | js/script.js:201-203 | clock readings alone fire a pending timer once, at the first reading at or after its deadline, and never fire when no timer is pending |
| `Debounce.BurstFiresOnce` | js/script.js:197-205 | a burst of calls followed by clock readings fires at most once; it fires exactly when some reading is a full wait after the last call, at the first such reading, and only then leaves no timer |
| `Debounce.FiresFollowQuietPeriod` | js/script.js:197-205 | in any interleaving of calls and clock readings, each run happens at a clock reading, at its time, and that time is at least a full wait after the latest call before the reading |
| `Debounce.RunsSeparatedByCalls` | js/script.js:197-205 | in any interleaving, there is a call between any two runs, so each burst of calls runs the function at most once |
| `Debounce.InterleavedBurst` | js/script.js:197-205 | calls at 0, 50 and 100 ms interleaved with readings at 25 and 75 ms fire once, at the 400 ms reading, with the 300 ms wait |
| `Debounce.SearchCollapsing` | js/script.js:25 | calls at 0, 50, 100 and 150 ms with the 300 ms search wait fire once, at 450 |
| `Debounce.Expire` | js/script.js:214-216 | a timer due by t has cleared itself; one not yet due is kept |
| `Debounce.LeadingCall` | js/script.js:209-216 | `debounceImmediate`'s function runs exactly when no timer is pending, and the timer becomes one due a wait after the call |
| `Debounce.PromptCall` | js/script.js:209-216 | a call with every due timer already run: it runs exactly when no timer is pending or the pending one is due, and restarts the timer |
| `Debounce.PressRun` | js/script.js:209-216 | one answer per press, in order, each from the timer the press before it left |
| `Debounce.PressRunRuns` | js/script.js:207-218 | a leading-edge call runs the function exactly when the call before it, whether it ran or not, is at least a window earlier; the first call runs exactly when no timer is pending or the pending one is already due |
| `Debounce.FavoriteDoubleTap` | js/script.js:126 | with the favorite button's 200 ms wait, taps at 0 and 100 ms toggle once and a tap at 350 ms toggles again |
| `Debounce.Debouncer.constructor` | js/script.js:197-198 | a new debounced function has no pending timer |
| `Debounce.Debouncer.Call` | js/script.js:199-204 | each call cancels any pending timer and sets one due a full wait after the call |
| `Debounce.Debouncer.Tick` | js/script.js:201-203 | the wrapped function runs exactly when a timer is pending and due, and that timer is then gone |
| `Debounce.LeadingDebouncer.constructor` | js/script.js:207-208 | a new immediate-debounced function has no pending timer |
| `Debounce.LeadingDebouncer.Call` | js/script.js:209-217 | the function runs exactly when no timer is pending, and every call restarts the timer |
| `Debounce.LeadingDebouncer.Tick` | js/script.js:214-216 | a due timer sets the state back to "no timer"; otherwise nothing changes |
| `Debounce.LeadingDebouncer.Press` | js/script.js:207-218 | a call delivered after due timers have run runs the function exactly when no timer was pending or it was due |
| `Widget.Flagged` | js/script.js:152-163 | `classList.add/remove('favorited')` on one card: that card's mark becomes the given value, nothing else about it changes, and every other card is kept |
| `Widget.SearchRequest` | js/script.js:27-30 | a request is sent exactly when the string is not empty, and it carries that string unchanged |
| `Widget.WhitespaceQueryIsSent` | js/script.js:15-30 | a box holding a single space trims to empty, so the favorites show, yet a search for " " is still sent |
| `Widget.Page.constructor` | js/script.js:4-12 | on load the list and its persisted copy equal the stored list and the favorites view is rendered and shown |
| `Widget.Page.RenderFavorites` | js/script.js:68-86 | the favorites view becomes the favorite cards of the list, the empty-state message shows exactly when the list is empty, favorites are shown and results hidden, and nothing else changes |
| `Widget.Page.HandleSearchResult` | js/script.js:52-65 | the results view becomes the result cards of the response, results are shown and favorites hidden, and nothing else changes |
| `Widget.Page.SetFavorited` | js/script.js:152-163 | exactly one card's favorited mark is set or cleared |
| `Widget.Page.Toggle` | js/script.js:147-165 | the list becomes the toggled list and is persisted; ids stay unique; a removal clears the clicked card's mark, an addition sets it and prepends a card to the favorites view only when that view has no card with the id; visibility never changes |
| `Widget.Page.Unfavorite` | js/script.js:148-154 | the removal branch: drops exactly the found entry, clears the clicked card's mark, persists the list, and changes nothing else |
| `Widget.Page.Favorite` | js/script.js:157-164 | the addition branch: appends the card's four-field projection, prepends a card for it to the favorites view only when that view has no card with its id, sets the clicked card's mark, persists the list, and changes nothing else |
| `Widget.Page.Input` | js/script.js:15-22 | an empty trimmed query renders and shows the favorites and clears the results, a non-empty one leaves the views alone, and the search timer is always reset to the input time plus 300 ms |
| `Widget.Page.SearchTick` | js/script.js:25-30 | when the search timer is due it fires, and the request sent is the box's untrimmed value unless that value is exactly empty; otherwise nothing is sent and the timer stays |

## Left out

- The `fetch` POST to the discovery API, its fixed request body and `response.json()`. `SearchTick` returns the query that would be sent, and `HandleSearchResult` takes the response's site list as input.
- `localStorage` and `JSON.parse`/`JSON.stringify`. The persisted slot is the field `persisted`, which the model takes to decode to the list exactly. A malformed stored value would make `JSON.parse` throw at load; that is not modelled.
- Overlapping searches: a later response may land before an earlier one. The model applies `HandleSearchResult` in whatever order it is called.
- `AnimatedImage`: it only moves attributes and runs a CSS fade-in.
- DOM specifics: custom element registration, template cloning, the empty-state markup, `scrollTop`, and the touch `preventDefault` workaround.
- The per-card wiring of a 200 ms `debounceImmediate` around the favorite button (`connectedCallback`). The machine itself is `LeadingDebouncer`, `FavoriteDoubleTap` runs it with the 200 ms wait, and `Page.Toggle` is the call it lets through. Per-card debouncer instances, and the extra listeners added each time a card is reconnected, are not modelled.
- Widget.Page.Toggle: requires the clicked card to be bound to a record. On a placeholder the source dereferences a missing record (and pushes `null` first when the list is empty).
- Widget.Page.Toggle: the `data-id` attribute selector is modelled as an exact id match. An id containing a quote would make the selector invalid, so `querySelector` would throw.
- Timers fire on clock readings, not at real instants. A timer that is due but has not been ticked is still pending. `LeadingDebouncer.Press` and `PressRunRuns` cover the case where due timers run before the next call.
- Clock values are unbounded integers, so millisecond overflow is not modelled.
