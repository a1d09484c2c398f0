# Air Mozilla main views, modelled in Dafny

Air Mozilla publishes video events. Its main views do three things:

- `home` lists past (archived) events ten per page. It also shows the event that is live now, the other live events, the next three upcoming events, and the featured events.
- `event` shows one event by slug. A slug the event no longer has is redirected to the event's current slug. A private or merely initiated event is hidden from inactive requesters.
- `participant` shows one speaker profile, but only if that speaker is cleared.

The model treats these views as pure functions. Each maps the stored rows, the current time, the live margin, whether the requester is active, and a page number or slug to a response.

- `Records.dfy` — the rows: `Event`, `EventOldSlug`, `Participant`, and a `Store` holding the three tables. `Integral` states the database's constraints: ids and slugs are unique, and every old slug points to an existing event.
- `QuerySets.dfy` — what the views ask of the ORM:
  - `filter(**criteria)` over a filter dictionary (`Query`, `Matches`). SQL semantics apply: a comparison with NULL never selects the row.
  - `get(...)`, with its `DoesNotExist` and `MultipleObjectsReturned` outcomes.
  - `order_by`, as a sort proved sorted and a permutation of its input.
  - `[:k]`, as a proved "first k in order" fact.
- `Paging.dfy` — Django's `Paginator` as `home` uses it (ten per page, no orphans, an empty first page allowed). It includes the fallback to the last page, and the proof that the pages partition the list.
- `Views.dfy` — `Home`, `EventView` and `ParticipantView`, the three filter dictionaries of `home`, and the featured query.
- `ViewProperties.dfy` — the properties:
  - A direct definition of "past", "live" and "upcoming", and the proof that the filter dictionaries mean exactly that.
  - The classes are disjoint. An event starting exactly at the live boundary is in neither live nor upcoming.
  - Exactness and order of the past and live lists. The upcoming list holds the three earliest upcoming events.
  - The `live` / `also_live` split.
  - Paging, including the last-page fallback.
  - An inactive requester sees only public events.
  - Both directions of the event and participant gates, and the old-slug redirect.
  - In a store that keeps its constraints, no view raises an ORM exception.

Time is an integer number of seconds. The live boundary is `now + 60 * LIVE_MARGIN`.

Behaviour of the code worth knowing:

- An old slug leads to a temporary redirect (`redirect()` without `permanent=True`), not a permanent one. The model records this as `Redirect(..., false)`.
- Live events have no lower bound on their start time. An event that started long ago and was never archived is still live.
- A page number below 1 also raises `EmptyPage`, so page 0 shows the last page, like any page past the end.
- `get` can raise errors the view does not catch. These are a second row with the same slug, and an old slug whose event is gone. The model returns them as `ServerError`, and proves that they cannot occur in a store that keeps its constraints.

## Model

| member | source | states |
|---|---|---|
| `QuerySets.Where` | airmozilla/main/views.py:31-33 | Every row a filtered queryset keeps matches and is stored, and it keeps no more rows than are stored. That it keeps every match, as often as stored, is `WhereCounts`. |
| `QuerySets.WhereCounts` | airmozilla/main/views.py:31-33 | A filtered queryset holds each matching row exactly as often as it is stored, and no non-matching row. |
| `QuerySets.WhereMembers` | airmozilla/main/views.py:31-33 | A row is in a filtered queryset if and only if it is stored and matches. |
| `QuerySets.Filter` | airmozilla/main/views.py:31-33 | `Event.objects.filter(**q)` in store order. It has no contract of its own; what it keeps is stated by `FilterCounts`. |
| `QuerySets.FilterCounts` | airmozilla/main/views.py:31-33 | `Event.objects.filter(**q)` keeps each matching stored event as often as it is stored, and no other event. |
| `QuerySets.Get` | airmozilla/main/views.py:57-60 | `get` returns the single matching row. It raises `DoesNotExist` if and only if no row matches, and `MultipleObjectsReturned` if and only if two or more match. |
| `QuerySets.GetOfUnique` | airmozilla/main/views.py:58 | When no two rows match, `get` never raises `MultipleObjectsReturned`. |
| `QuerySets.Satisfies` | airmozilla/main/views.py:21-26 | The lookups `field=None`, `field__lt` and `field__gt` on a nullable date-time column. A comparison with NULL selects nothing, as in SQL. A predicate without a contract; its meaning for `home` is proved in `HomeFiltersMean`. |
| `QuerySets.Matches` | airmozilla/main/views.py:21-31 | A row is selected when it meets every entry of the filter dictionary; an absent key constrains nothing. A predicate without a contract; its meaning for `home` is proved in `HomeFiltersMean`. |
| `QuerySets.RequirePublic` | airmozilla/main/views.py:27-30 | Setting `'public': True` on a dictionary without that key selects exactly the rows selected before that are also public. |
| `QuerySets.Insert` | airmozilla/main/views.py:31-32 | Inserting a row into an ordered list keeps it ordered, adds exactly that row, and grows the list by one. |
| `QuerySets.OrderBy` | airmozilla/main/views.py:31-33 | `order_by` returns the same rows (a permutation), sorted by the key and direction. |
| `QuerySets.SortedSplit` | airmozilla/main/views.py:33-34 | Cutting a sorted list gives two sorted parts. Every row of the first part may stand before every row of the second. |
| `QuerySets.OrderedPrefix` | airmozilla/main/views.py:33-34 | `order_by(...)[:k]` has k rows, is sorted, and is drawn from the queryset. No row left out may stand before a row taken. |
| `Paging.PagesFor` | airmozilla/main/views.py:35 | For a count of rows, the least page count n ≥ 1 whose n full pages hold them all. |
| `Paging.NumPages` | airmozilla/main/views.py:35 | The number of pages is the least n ≥ 1 whose n pages hold every row. |
| `Paging.NumPagesIsCeiling` | airmozilla/main/views.py:35-39 | The number of pages equals Django's `ceil(max(1, count) / per_page)`. |
| `Paging.ValidNumber` | airmozilla/main/views.py:36-38 | The page numbers `page()` accepts without `EmptyPage`: 1 to `num_pages`. A predicate without a contract; `PageOrLast` states what happens outside it. |
| `Paging.PageAt` | airmozilla/main/views.py:37 | A valid page holds at most `per_page` rows. It is empty only when the list is, and it is the slice of the list for its number; the last page runs to the end. |
| `Paging.PageOrLast` | airmozilla/main/views.py:36-39 | The requested page is shown when its number is in `1..num_pages`. Any other number shows the last page instead of an error. |
| `Paging.PageRowsFromList` | airmozilla/main/views.py:36-39 | Every row on the page shown, requested or fallback, is a row of the paginated list. |
| `Paging.RowOnItsPage` | airmozilla/main/views.py:35-37 | Row i of the list is on page `i / per_page + 1`, at position `i % per_page`. |
| `Paging.PagesFrom` | airmozilla/main/views.py:35-37 | The rows of pages n, n+1, … up to the last, one after another. No contract of its own; `PagesFromIsSuffix` and `PagesCoverList` state what it gives. |
| `Paging.PagesFromIsSuffix` | airmozilla/main/views.py:35-37 | Pages n, n+1, … up to the last, read in order, are the list from row `(n-1) * per_page` onwards. |
| `Paging.PagesCoverList` | airmozilla/main/views.py:35-39 | The pages, read in order, give back the whole list: every row exactly once, in order. |
| `Views.Featured` | airmozilla/main/views.py:19 | The featured list holds exactly the stored events that are public and featured. |
| `Views.LiveTime` | airmozilla/main/views.py:22 | The live boundary `now + LIVE_MARGIN` minutes, in seconds. No contract of its own; `HomeFiltersMean` and `ClassesDisjoint` use it. |
| `Views.HomeFiltersFor` | airmozilla/main/views.py:21-30 | An inactive requester gets `public = True` in all three filter dictionaries. An active one gets it in none. |
| `Views.PastEvents` | airmozilla/main/views.py:31 | `past_events`. No contract of its own; `PastListExact` proves it holds exactly the past events, latest archived first. |
| `Views.PastPage` | airmozilla/main/views.py:35-39 | `past_events_paged`. No contract of its own; `PastPaging` and `PastEventOnItsPage` state what it shows. |
| `Views.LiveEvents` | airmozilla/main/views.py:32 | `live_events`. No contract of its own; `LiveListExact` proves it holds exactly the live events, earliest start first. |
| `Views.EligibleUpcoming` | airmozilla/main/views.py:33 | The upcoming filter before ordering and `[:3]`. No contract of its own; `UpcomingListExact` proves it holds exactly the upcoming events. |
| `Views.UpcomingEvents` | airmozilla/main/views.py:33-34 | The upcoming list has at most three events. |
| `Views.SplitLive` | airmozilla/main/views.py:40-44 | `live` is absent exactly when nothing is live, and then `also_live` is empty. Otherwise `live` followed by `also_live` gives back the live list. |
| `Views.Home` | airmozilla/main/views.py:17-51 | `home` renders `main/home.html`. Its page is the requested page (or the last one) of a ten-per-page paginator over the past list, and its featured list is the featured query. Its upcoming list is `UpcomingEvents`, and its `live` and `also_live` are `SplitLive` of the live list. |
| `Views.EventView` | airmozilla/main/views.py:54-68 | A rendered event page shows a stored event with the requested slug, together with the featured list. Redirects are temporary. |
| `Views.ParticipantView` | airmozilla/main/views.py:71-80 | A rendered participant page shows a stored participant with the requested slug. The only redirect is to the login page. |
| `ViewProperties.HomeFiltersMean` | airmozilla/main/views.py:21-30 | Each filter dictionary selects exactly its class. Past: scheduled, archived before now. Live: scheduled, not archived, starting before the boundary. Upcoming: the same, but starting after the boundary. An inactive requester adds "public" to all three. |
| `ViewProperties.ClassesDisjoint` | airmozilla/main/views.py:21-26 | No event is in two of the past, live and upcoming classes. An event starting exactly at the live boundary is in neither live nor upcoming. |
| `ViewProperties.HomeFilterCounts` | airmozilla/main/views.py:31-33 | A helper: `FilterCounts` restated for a filter known to select exactly one class. That filter keeps every stored event of the class, as often as stored, and nothing else. `PastListExact`, `LiveListExact` and `UpcomingListExact` build on it. |
| `ViewProperties.PastListExact` | airmozilla/main/views.py:21-31 | The past list holds exactly the past events, each as often as stored, ordered by archive time with the latest first. |
| `ViewProperties.LiveListExact` | airmozilla/main/views.py:22-32 | The live list holds exactly the live events, ordered by start time with the earliest first. |
| `ViewProperties.UpcomingListExact` | airmozilla/main/views.py:25-33 | Before ordering and `[:3]`, the upcoming filter holds exactly the upcoming events, each as often as stored. So the events `UpcomingAreEarliest` calls left out are upcoming events. |
| `ViewProperties.UpcomingAreEarliest` | airmozilla/main/views.py:25-34 | The upcoming list shows `min(3, n)` upcoming events, sorted by start time. None of the upcoming events left out starts before one that is shown. |
| `ViewProperties.LiveSplit` | airmozilla/main/views.py:40-44 | `live` is absent if and only if nothing is live, and then `also_live` is empty. Otherwise `[live] + also_live` is the live list, and `live` starts no later than any event in `also_live`. |
| `ViewProperties.PastPaging` | airmozilla/main/views.py:35-39 | The page shown has the requested number if that number is valid, and the last number otherwise. It holds at most ten past events, is the paginator's page of that number, and all pages together give back the past list. |
| `ViewProperties.PastEventOnItsPage` | airmozilla/main/views.py:35-39 | Past event i appears on page `i / 10 + 1`, at position `i % 10`. |
| `ViewProperties.PastPageIsPast` | airmozilla/main/views.py:21-39 | Every event on the past page shown is a past event for this requester. |
| `ViewProperties.LiveShownAreLive` | airmozilla/main/views.py:22-44 | `live` and every event in `also_live` are live events for this requester. |
| `ViewProperties.HomeShowsOnlyItsClasses` | airmozilla/main/views.py:21-44 | Each event on the home page belongs to the class of its list: past, live or upcoming. |
| `ViewProperties.InactiveSeesOnlyPublic` | airmozilla/main/views.py:27-30 | For an inactive requester, every event in the past page, `live`, `also_live`, `upcoming` and `featured` is public. |
| `ViewProperties.HomeListsDisjoint` | airmozilla/main/views.py:21-26 | No event is listed both as past and live, as past and upcoming, or as live and upcoming. |
| `ViewProperties.FeaturedIgnoresRequester` | airmozilla/main/views.py:19 | The home page's featured list is the same for active and inactive requesters, and holds exactly the public featured events. |
| `ViewProperties.EventGate` | airmozilla/main/views.py:62-68 | An event found by slug redirects to login if and only if it is (private or initiated) and the requester is inactive. Otherwise the event is rendered. |
| `ViewProperties.OldSlugRedirects` | airmozilla/main/views.py:57-61 | When no event has the slug but an old slug does, the result is a temporary redirect to the current slug of the old slug's event. |
| `ViewProperties.EventNotFound` | airmozilla/main/views.py:57-61 | The event page is not found if and only if neither an event nor an old slug has the slug. |
| `ViewProperties.EventViewTotal` | airmozilla/main/views.py:57-61 | In a store that keeps its constraints, the event page never raises an ORM exception. |
| `ViewProperties.ParticipantGate` | airmozilla/main/views.py:73-80 | A participant found by slug is rendered if and only if cleared. Any other participant redirects to login, whoever asks. |
| `ViewProperties.ParticipantIgnoresRequester` | airmozilla/main/views.py:71-76 | The participant page's outcome does not depend on whether the requester is active. It is not found if and only if no participant has the slug. |
| `ViewProperties.ParticipantViewTotal` | airmozilla/main/views.py:73 | In a store that keeps its constraints, the participant page never raises an ORM exception. |

## Left out

- The static `page` view (airmozilla/main/views.py:11-14): it only runs the featured query, already modelled as `Views.Featured`, and renders a template.
- Template rendering, URL reversal for `redirect`, and HTTP status codes. They appear only as the `Render`, `Redirect`, `NotFound` and `ServerError` constructors.
- The Django ORM and `Paginator` themselves are not part of this model. Their documented behaviour is written out in `QuerySets` and `Paging`:
  - `Paginator` is modelled with its defaults fixed: no orphans, and an empty first page allowed.
  - Non-integer page numbers (`PageNotAnInteger`) are not caught by the view, and are not modelled.
- The default `page=1` of `home` (airmozilla/main/views.py:17). `Views.Home` always takes the page number as a parameter; a caller passes 1 where the URL gives no page.
- The clock, time zones and sub-second precision. `now` and the live margin are integer parameters.
- `settings.LIVE_MARGIN` is a parameter.
- Authentication: `request.user.is_active` is a boolean parameter.
- The order of rows with equal sort keys, which the database leaves open. The model keeps store order. Every lemma relies only on "sorted and a permutation".
- Paging reads `past_events` in one fixed order. Django's `Paginator` runs a separate query per page, and when archive times tie the database may order the tied rows differently from one query to the next. `PagesCoverList` and `PastEventOnItsPage` hold for one fixed order.
- Slug equality is taken as exact string equality (`e.slug == slug`). The SQL `=` behind `get(slug=...)` follows the database collation, which may fold case.
- The order of unordered querysets, such as the featured list: the model keeps store order.
- Laziness of querysets and database failures.
- The other status and clearance codes. They are defined in airmozilla/main/models.py, which is not part of this model. The views only compare against SCHEDULED, INITIATED and CLEARED_YES.
- `Views.Home`: the template gets `False` for `live` when nothing is live. The model uses `None`.
