/** What the views promise: the home page's classification of events into past,
    live and upcoming, its paging, the visibility rule for inactive requesters,
    and the access gates of the event and participant pages. */
module ViewProperties {
  import opened Records
  import opened QuerySets
  import opened Paging
  import opened Views

  // ---------------------------------------------------------------------------
  // The classification, stated directly on an event
  // ---------------------------------------------------------------------------

  /** Archived before `now`, scheduled, and visible to the requester. */
  predicate IsPast(e: Event, now: Instant, isActive: bool)
  {
    e.status == Scheduled && e.archiveTime.Some? && e.archiveTime.value < now && (isActive || e.public)
  }

  /** Not archived, scheduled, and starting before the live boundary; there is
      no lower bound on the start. */
  predicate IsLive(e: Event, liveTime: Instant, isActive: bool)
  {
    e.status == Scheduled && e.archiveTime.None? && e.startTime.Some? && e.startTime.value < liveTime
    && (isActive || e.public)
  }

  /** Not archived, scheduled, and starting after the live boundary. */
  predicate IsUpcoming(e: Event, liveTime: Instant, isActive: bool)
  {
    e.status == Scheduled && e.archiveTime.None? && e.startTime.Some? && e.startTime.value > liveTime
    && (isActive || e.public)
  }

  /** The three filter dictionaries of `home` select exactly the events of the
      three classes, with the same `public` conjunct on all three. */
  lemma HomeFiltersMean(now: Instant, liveMarginMinutes: int, isActive: bool, e: Event)
    ensures var f := HomeFiltersFor(now, liveMarginMinutes, isActive);
      && (Matches(f.past, e) <==> IsPast(e, now, isActive))
      && (Matches(f.live, e) <==> IsLive(e, LiveTime(now, liveMarginMinutes), isActive))
      && (Matches(f.upcoming, e) <==> IsUpcoming(e, LiveTime(now, liveMarginMinutes), isActive))
  {}

  /** No event is in two classes, and one starting exactly at the live
      boundary is neither live nor upcoming. */
  lemma ClassesDisjoint(e: Event, now: Instant, liveTime: Instant, isActive: bool)
    ensures !(IsPast(e, now, isActive) && IsLive(e, liveTime, isActive))
    ensures !(IsPast(e, now, isActive) && IsUpcoming(e, liveTime, isActive))
    ensures !(IsLive(e, liveTime, isActive) && IsUpcoming(e, liveTime, isActive))
    ensures e.startTime == Some(liveTime) ==> !IsLive(e, liveTime, isActive) && !IsUpcoming(e, liveTime, isActive)
  {}

  // ---------------------------------------------------------------------------
  // The three lists of the home page
  // ---------------------------------------------------------------------------

  /** A filter of `home` keeps each stored event of its class as often as it is
      stored, and no other. */
  lemma {:induction false} HomeFilterCounts(events: seq<Event>, q: Query, inClass: Event -> bool)
    requires forall e :: Matches(q, e) <==> inClass(e)
    ensures forall e :: multiset(Filter(events, q))[e] == if inClass(e) then multiset(events)[e] else 0
  {
    FilterCounts(events, q);
  }

  /** The list behind the past pages holds exactly the past events, most
      recently archived first. */
  lemma PastListExact(events: seq<Event>, now: Instant, liveMarginMinutes: int, isActive: bool)
    ensures var past := PastEvents(events, now, liveMarginMinutes, isActive);
      && SortedBy(PastOrder, past)
      && forall e :: multiset(past)[e] == if IsPast(e, now, isActive) then multiset(events)[e] else 0
  {
    var f := HomeFiltersFor(now, liveMarginMinutes, isActive);
    forall e ensures Matches(f.past, e) <==> IsPast(e, now, isActive) {
      HomeFiltersMean(now, liveMarginMinutes, isActive, e);
    }
    HomeFilterCounts(events, f.past, e => IsPast(e, now, isActive));
  }

  /** The live list holds exactly the live events, earliest start first. */
  lemma LiveListExact(events: seq<Event>, now: Instant, liveMarginMinutes: int, isActive: bool)
    ensures var live := LiveEvents(events, now, liveMarginMinutes, isActive);
      && SortedBy(StartOrder, live)
      && forall e :: multiset(live)[e] ==
           if IsLive(e, LiveTime(now, liveMarginMinutes), isActive) then multiset(events)[e] else 0
  {
    var f := HomeFiltersFor(now, liveMarginMinutes, isActive);
    var liveTime := LiveTime(now, liveMarginMinutes);
    forall e ensures Matches(f.live, e) <==> IsLive(e, liveTime, isActive) {
      HomeFiltersMean(now, liveMarginMinutes, isActive, e);
    }
    HomeFilterCounts(events, f.live, e => IsLive(e, liveTime, isActive));
  }

  /** The upcoming events before ordering and `[:3]` are exactly the upcoming
      class, each as often as it is stored. */
  lemma UpcomingListExact(events: seq<Event>, now: Instant, liveMarginMinutes: int, isActive: bool)
    ensures forall e :: multiset(EligibleUpcoming(events, now, liveMarginMinutes, isActive))[e] ==
              if IsUpcoming(e, LiveTime(now, liveMarginMinutes), isActive) then multiset(events)[e] else 0
  {
    var f := HomeFiltersFor(now, liveMarginMinutes, isActive);
    var liveTime := LiveTime(now, liveMarginMinutes);
    forall e ensures Matches(f.upcoming, e) <==> IsUpcoming(e, liveTime, isActive) {
      HomeFiltersMean(now, liveMarginMinutes, isActive, e);
    }
    HomeFilterCounts(events, f.upcoming, e => IsUpcoming(e, liveTime, isActive));
  }

  /** At most three upcoming events are shown, in ascending start order, and
      they are the earliest-starting ones: every upcoming event left out starts
      no earlier than every one shown. */
  lemma UpcomingAreEarliest(events: seq<Event>, now: Instant, liveMarginMinutes: int, isActive: bool)
    ensures var shown := UpcomingEvents(events, now, liveMarginMinutes, isActive);
      var eligible := EligibleUpcoming(events, now, liveMarginMinutes, isActive);
      && |shown| == (if |eligible| < UpcomingLimit then |eligible| else UpcomingLimit)
      && SortedBy(StartOrder, shown)
      && multiset(shown) <= multiset(eligible)
      && (forall x :: x in shown ==> IsUpcoming(x, LiveTime(now, liveMarginMinutes), isActive))
      && (forall x, y :: x in shown && y in multiset(eligible) - multiset(shown) ==> Precedes(StartOrder, x, y))
  {
    var eligible := EligibleUpcoming(events, now, liveMarginMinutes, isActive);
    var shown := UpcomingEvents(events, now, liveMarginMinutes, isActive);
    var k := if |eligible| < UpcomingLimit then |eligible| else UpcomingLimit;
    assert |OrderBy(eligible, StartOrder)| == |eligible|;
    assert shown == OrderBy(eligible, StartOrder)[..k];
    OrderedPrefix(eligible, StartOrder, k);
    forall x | x in shown ensures IsUpcoming(x, LiveTime(now, liveMarginMinutes), isActive) {
      assert x in multiset(eligible);
      FilterCounts(events, HomeFiltersFor(now, liveMarginMinutes, isActive).upcoming);
      HomeFiltersMean(now, liveMarginMinutes, isActive, x);
    }
  }

  /** The first live event is `live` and the rest are `also_live`; with
      nothing live, `live` is absent and `also_live` empty. `live` starts no
      later than any event in `also_live`. */
  lemma LiveSplit(events: seq<Event>, now: Instant, liveMarginMinutes: int, isActive: bool, page: int)
    ensures var ctx := Home(events, now, liveMarginMinutes, isActive, page).context;
      var live := LiveEvents(events, now, liveMarginMinutes, isActive);
      && (ctx.live.None? <==> live == [])
      && (ctx.live.None? ==> ctx.alsoLive == [])
      && (ctx.live.Some? ==> [ctx.live.value] + ctx.alsoLive == live)
      && (ctx.live.Some? ==> forall x :: x in ctx.alsoLive ==> Precedes(StartOrder, ctx.live.value, x))
  {
    var live := LiveEvents(events, now, liveMarginMinutes, isActive);
    if live != [] {
      assert live == [live[0]] + live[1..];
      forall x | x in live[1..] ensures Precedes(StartOrder, live[0], x) {
        var j :| 0 <= j < |live[1..]| && live[1..][j] == x;
        assert live[j + 1] == x;
      }
    }
  }

  /** The page shown is the requested one when it exists and the last one
      otherwise; it holds at most ten past events, it is the page of that
      number, and the pages together give back the whole past list. */
  lemma PastPaging(events: seq<Event>, now: Instant, liveMarginMinutes: int, isActive: bool, page: int)
    ensures var shown := PastPage(events, now, liveMarginMinutes, isActive, page);
      var pager := Paginator(PastEvents(events, now, liveMarginMinutes, isActive), PageSize);
      && shown.paginator == pager
      && shown.number == (if 1 <= page <= NumPages(pager) then page else NumPages(pager))
      && |shown.objectList| <= PageSize
      && shown == PageAt(pager, shown.number)
      && PagesFrom(pager, 1) == pager.objectList
  {
    PageOrLastShows(Paginator(PastEvents(events, now, liveMarginMinutes, isActive), PageSize), page);
  }

  /** Past event `i`, in whatever position it is archived, is shown on page
      `i / 10 + 1`, at position `i % 10`. */
  lemma PastEventOnItsPage(events: seq<Event>, now: Instant, liveMarginMinutes: int, isActive: bool, i: nat)
    requires i < |PastEvents(events, now, liveMarginMinutes, isActive)|
    ensures var shown := PastPage(events, now, liveMarginMinutes, isActive, i / PageSize + 1);
      && shown.number == i / PageSize + 1
      && i % PageSize < |shown.objectList|
      && shown.objectList[i % PageSize] == PastEvents(events, now, liveMarginMinutes, isActive)[i]
  {
    RowOnShownPage(Paginator(PastEvents(events, now, liveMarginMinutes, isActive), PageSize), i);
  }

  // ---------------------------------------------------------------------------
  // Visibility
  // ---------------------------------------------------------------------------

  /** Every event on a past page is a past event. */
  lemma PastPageIsPast(events: seq<Event>, now: Instant, liveMarginMinutes: int, isActive: bool, page: int)
    ensures forall e :: e in PastPage(events, now, liveMarginMinutes, isActive, page).objectList ==> IsPast(e, now, isActive)
  {
    var past := PastEvents(events, now, liveMarginMinutes, isActive);
    PageRowsFromList(Paginator(past, PageSize), page);
    PastListExact(events, now, liveMarginMinutes, isActive);
    forall e | e in PastPage(events, now, liveMarginMinutes, isActive, page).objectList
      ensures IsPast(e, now, isActive)
    {
      assert e in multiset(past);
    }
  }

  /** `live` and every event in `also_live` are live events. */
  lemma LiveShownAreLive(events: seq<Event>, now: Instant, liveMarginMinutes: int, isActive: bool, page: int)
    ensures var ctx := Home(events, now, liveMarginMinutes, isActive, page).context;
      forall e :: ctx.live == Some(e) || e in ctx.alsoLive ==> IsLive(e, LiveTime(now, liveMarginMinutes), isActive)
  {
    var ctx := Home(events, now, liveMarginMinutes, isActive, page).context;
    var live := LiveEvents(events, now, liveMarginMinutes, isActive);
    LiveListExact(events, now, liveMarginMinutes, isActive);
    LiveSplit(events, now, liveMarginMinutes, isActive, page);
    forall e | ctx.live == Some(e) || e in ctx.alsoLive ensures IsLive(e, LiveTime(now, liveMarginMinutes), isActive) {
      assert e in live;
      assert e in multiset(live);
    }
  }

  /** The events a home page shows are past, live or upcoming, as their list says. */
  lemma HomeShowsOnlyItsClasses(events: seq<Event>, now: Instant, liveMarginMinutes: int, isActive: bool, page: int)
    ensures var ctx := Home(events, now, liveMarginMinutes, isActive, page).context;
      var liveTime := LiveTime(now, liveMarginMinutes);
      && (forall e :: e in ctx.events.objectList ==> IsPast(e, now, isActive))
      && (forall e :: ctx.live == Some(e) ==> IsLive(e, liveTime, isActive))
      && (forall e :: e in ctx.alsoLive ==> IsLive(e, liveTime, isActive))
      && (forall e :: e in ctx.upcoming ==> IsUpcoming(e, liveTime, isActive))
  {
    PastPageIsPast(events, now, liveMarginMinutes, isActive, page);
    LiveShownAreLive(events, now, liveMarginMinutes, isActive, page);
    UpcomingAreEarliest(events, now, liveMarginMinutes, isActive);
  }

  /** For a requester who is not active, every event on the home page is
      public: the `public` conjunct reaches all three lists, and the featured
      list is public for everyone. */
  lemma InactiveSeesOnlyPublic(events: seq<Event>, now: Instant, liveMarginMinutes: int, page: int)
    ensures var ctx := Home(events, now, liveMarginMinutes, false, page).context;
      forall e :: (e in ctx.events.objectList || ctx.live == Some(e) || e in ctx.alsoLive
                   || e in ctx.upcoming || e in ctx.featured) ==> e.public
  {
    HomeShowsOnlyItsClasses(events, now, liveMarginMinutes, false, page);
  }

  /** No event is listed both as past and live, past and upcoming, or live
      and upcoming. */
  lemma HomeListsDisjoint(events: seq<Event>, now: Instant, liveMarginMinutes: int, isActive: bool, page: int)
    ensures var ctx := Home(events, now, liveMarginMinutes, isActive, page).context;
      && (forall e :: e in ctx.events.objectList ==> ctx.live != Some(e) && e !in ctx.alsoLive && e !in ctx.upcoming)
      && (forall e :: ctx.live == Some(e) || e in ctx.alsoLive ==> e !in ctx.upcoming)
  {
    HomeShowsOnlyItsClasses(events, now, liveMarginMinutes, isActive, page);
    var ctx := Home(events, now, liveMarginMinutes, isActive, page).context;
    forall e | e in ctx.events.objectList || ctx.live == Some(e) || e in ctx.alsoLive
      ensures !(e in ctx.events.objectList && (ctx.live == Some(e) || e in ctx.alsoLive || e in ctx.upcoming))
      ensures !((ctx.live == Some(e) || e in ctx.alsoLive) && e in ctx.upcoming)
    {
      ClassesDisjoint(e, now, LiveTime(now, liveMarginMinutes), isActive);
    }
  }

  /** The featured list of the home page is the public featured events,
      whoever asks. */
  lemma FeaturedIgnoresRequester(events: seq<Event>, now: Instant, liveMarginMinutes: int, page: int)
    ensures var featured := Home(events, now, liveMarginMinutes, false, page).context.featured;
      && featured == Home(events, now, liveMarginMinutes, true, page).context.featured
      && forall e :: e in featured <==> e in events && e.public && e.featured
  {}

  // ---------------------------------------------------------------------------
  // The event page
  // ---------------------------------------------------------------------------

  lemma UniqueEventSlug(store: Store, a: Event, b: Event)
    requires Integral(store) && a in store.events && b in store.events && a.slug == b.slug
    ensures a == b
  {
    var i :| 0 <= i < |store.events| && store.events[i] == a;
    var j :| 0 <= j < |store.events| && store.events[j] == b;
  }

  lemma UniqueEventId(store: Store, a: Event, b: Event)
    requires Integral(store) && a in store.events && b in store.events && a.id == b.id
    ensures a == b
  {
    var i :| 0 <= i < |store.events| && store.events[i] == a;
    var j :| 0 <= j < |store.events| && store.events[j] == b;
  }

  /** An event found by its slug is rendered unless it is private or only
      initiated and the requester is not active, in which case the requester
      is sent to the login page. */
  lemma EventGate(store: Store, slug: string, isActive: bool, e: Event)
    requires Integral(store) && e in store.events && e.slug == slug
    ensures EventView(store, slug, isActive) ==
      if (!e.public || e.status == Initiated) && !isActive then Redirect(Login, false)
      else Render("main/event.html", EventContext(e, Featured(store.events)))
  {
    var bySlug := (x: Event) => x.slug == slug;
    GetOfUnique(store.events, bySlug);
    var found := Get(store.events, bySlug);
    assert found.Found?;
    UniqueEventSlug(store, found.value, e);
  }

  /** A slug no event has but an old slug has leads, by a temporary redirect,
      to the current slug of the event the old slug belongs to. */
  lemma OldSlugRedirects(store: Store, slug: string, isActive: bool, o: EventOldSlug)
    requires Integral(store) && o in store.oldSlugs && o.slug == slug
    requires forall e :: e in store.events ==> e.slug != slug
    ensures exists current :: current in store.events && current.id == o.eventId
    ensures forall current :: current in store.events && current.id == o.eventId ==>
              EventView(store, slug, isActive) == Redirect(EventPage(current.slug), false)
  {
    assert Get(store.events, (e: Event) => e.slug == slug) == Raised(DoesNotExist);
    var byOldSlug := (x: EventOldSlug) => x.slug == slug;
    GetOfUnique(store.oldSlugs, byOldSlug);
    var found := Get(store.oldSlugs, byOldSlug);
    var i :| 0 <= i < |store.oldSlugs| && store.oldSlugs[i] == o;
    var j :| 0 <= j < |store.oldSlugs| && store.oldSlugs[j] == found.value;
    assert found == Found(o);
    var byId := (x: Event) => x.id == o.eventId;
    GetOfUnique(store.events, byId);
    var target := Get(store.events, byId);
    assert target.Found?;
    assert EventView(store, slug, isActive) == Redirect(EventPage(target.value.slug), false);
    forall current | current in store.events && current.id == o.eventId
      ensures current == target.value
    {
      UniqueEventId(store, current, target.value);
    }
  }

  /** Not found exactly when neither an event nor an old slug has the slug. */
  lemma EventNotFound(store: Store, slug: string, isActive: bool)
    ensures EventView(store, slug, isActive) == NotFound <==>
      (forall e :: e in store.events ==> e.slug != slug) && (forall o :: o in store.oldSlugs ==> o.slug != slug)
  {}

  /** In a store that keeps its constraints the event page never fails with
      an ORM exception. */
  lemma EventViewTotal(store: Store, slug: string, isActive: bool)
    requires Integral(store)
    ensures !EventView(store, slug, isActive).ServerError?
  {
    if e :| e in store.events && e.slug == slug {
      EventGate(store, slug, isActive, e);
    } else if o :| o in store.oldSlugs && o.slug == slug {
      OldSlugRedirects(store, slug, isActive, o);
    }
  }

  // ---------------------------------------------------------------------------
  // The participant page
  // ---------------------------------------------------------------------------

  /** A participant found by slug is rendered exactly when cleared; anyone
      else, active or not, is sent to the login page. */
  lemma ParticipantGate(store: Store, slug: string, isActive: bool, p: Participant)
    requires Integral(store) && p in store.participants && p.slug == slug
    ensures ParticipantView(store, slug, isActive) ==
      if p.cleared != ClearedYes then Redirect(Login, false)
      else Render("main/participant.html", ParticipantContext(p, Featured(store.events)))
  {
    var bySlug := (x: Participant) => x.slug == slug;
    GetOfUnique(store.participants, bySlug);
    var found := Get(store.participants, bySlug);
    assert found.Found?;
    var i :| 0 <= i < |store.participants| && store.participants[i] == p;
    var j :| 0 <= j < |store.participants| && store.participants[j] == found.value;
  }

  /** Not found exactly when no participant has the slug; the outcome never
      depends on whether the requester is active. */
  lemma ParticipantIgnoresRequester(store: Store, slug: string)
    ensures ParticipantView(store, slug, true) == ParticipantView(store, slug, false)
    ensures ParticipantView(store, slug, false) == NotFound <==> forall p :: p in store.participants ==> p.slug != slug
  {}

  /** In a store that keeps its constraints the participant page never fails
      with an ORM exception. */
  lemma ParticipantViewTotal(store: Store, slug: string, isActive: bool)
    requires Integral(store)
    ensures !ParticipantView(store, slug, isActive).ServerError?
  {
    if p :| p in store.participants && p.slug == slug {
      ParticipantGate(store, slug, isActive, p);
    }
  }
}
