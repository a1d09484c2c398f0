/** The views of airmozilla.main: the home page with its past, live and
    upcoming events, the page of one event, and the page of one participant.
    The current time, the live margin and whether the requester is an active
    user are parameters; the outcome is what the view hands back to Django. */
module Views {
  import opened Records
  import opened QuerySets
  import opened Paging

  /** Where a redirect sends the browser: the named `main:login` route, or the
      `main:event` route for a slug. */
  datatype Target = Login | EventPage(slug: string)

  /** The template context of each view. On the home page `live` is `None`
      where the template receives `False`. */
  datatype Context =
    | HomeContext(
        events: Page<Event>,
        featured: seq<Event>,
        upcoming: seq<Event>,
        live: Option<Event>,
        alsoLive: seq<Event>)
    | EventContext(event: Event, featured: seq<Event>)
    | ParticipantContext(participant: Participant, featured: seq<Event>)

  /** What a view returns: a rendered template, a redirect (`redirect()`
      without `permanent=True` is a temporary one), the 404 of
      `get_object_or_404`, or an ORM exception the view does not catch. */
  datatype Response =
    | Render(template: string, context: Context)
    | Redirect(target: Target, permanent: bool)
    | NotFound
    | ServerError(error: OrmError)

  /** Rows of the past listing per page. */
  const PageSize: nat := 10
  /** How many upcoming events the home page shows. */
  const UpcomingLimit: nat := 3

  // ---------------------------------------------------------------------------
  // Queries
  // ---------------------------------------------------------------------------

  /** `Event.objects.filter(public=True, featured=True)`, which every view
      passes to its template whoever asks. */
  const FeaturedQuery := NoCriteria.(public := Some(true), featured := Some(true))

  function Featured(events: seq<Event>): (r: seq<Event>)
    ensures forall e :: e in r <==> e in events && e.public && e.featured
  {
    FilterCounts(events, FeaturedQuery);
    Filter(events, FeaturedQuery)
  }

  /** `now + timedelta(minutes=settings.LIVE_MARGIN)`. */
  function LiveTime(now: Instant, liveMarginMinutes: int): Instant
  {
    now + 60 * liveMarginMinutes
  }

  /** The three filter dictionaries `home` builds. */
  datatype HomeFilters = HomeFilters(past: Query, live: Query, upcoming: Query)

  /** `past_filter`, `live_filter` and `upcoming_filter`, each given
      `'public': True` when the requester is not active. */
  function HomeFiltersFor(now: Instant, liveMarginMinutes: int, isActive: bool): (f: HomeFilters)
    ensures !isActive ==> f.past.public == f.live.public == f.upcoming.public == Some(true)
    ensures isActive ==> f.past.public.None? && f.live.public.None? && f.upcoming.public.None?
  {
    var liveTime := LiveTime(now, liveMarginMinutes);
    var past := NoCriteria.(archiveTime := Lt(now), status := Some(Scheduled));
    var live := NoCriteria.(archiveTime := IsNull, startTime := Lt(liveTime), status := Some(Scheduled));
    var upcoming := NoCriteria.(archiveTime := IsNull, startTime := Gt(liveTime), status := Some(Scheduled));
    if !isActive then
      HomeFilters(RequirePublic(past), RequirePublic(live), RequirePublic(upcoming))
    else
      HomeFilters(past, live, upcoming)
  }

  const PastOrder := Ordering(ArchiveTime, Descending)
  const StartOrder := Ordering(StartTime, Ascending)

  /** `past_events`: the past filter ordered by `-archive_time`. */
  function PastEvents(events: seq<Event>, now: Instant, liveMarginMinutes: int, isActive: bool): seq<Event>
  {
    OrderBy(Filter(events, HomeFiltersFor(now, liveMarginMinutes, isActive).past), PastOrder)
  }

  /** `past_events_paged`: page `page` of `Paginator(past_events, 10)`, or the
      last page when `page` raises `EmptyPage`. */
  function PastPage(events: seq<Event>, now: Instant, liveMarginMinutes: int, isActive: bool, page: int): Page<Event>
  {
    PageOrLast(Paginator(PastEvents(events, now, liveMarginMinutes, isActive), PageSize), page)
  }

  /** `live_events`: the live filter ordered by `start_time`. */
  function LiveEvents(events: seq<Event>, now: Instant, liveMarginMinutes: int, isActive: bool): seq<Event>
  {
    OrderBy(Filter(events, HomeFiltersFor(now, liveMarginMinutes, isActive).live), StartOrder)
  }

  /** The upcoming events in store order, before ordering and slicing. */
  function EligibleUpcoming(events: seq<Event>, now: Instant, liveMarginMinutes: int, isActive: bool): seq<Event>
  {
    Filter(events, HomeFiltersFor(now, liveMarginMinutes, isActive).upcoming)
  }

  /** `upcoming_events`: the upcoming filter ordered by `start_time`, sliced
      `[:3]`, which stops early on a shorter list. */
  function UpcomingEvents(events: seq<Event>, now: Instant, liveMarginMinutes: int, isActive: bool): (r: seq<Event>)
    ensures |r| <= UpcomingLimit
  {
    var ordered := OrderBy(EligibleUpcoming(events, now, liveMarginMinutes, isActive), StartOrder);
    ordered[..if |ordered| < UpcomingLimit then |ordered| else UpcomingLimit]
  }

  /** `live = live_events[0]` and `also_live = live_events[1:]` when there
      are live events; nothing otherwise. */
  function SplitLive(liveEvents: seq<Event>): (r: (Option<Event>, seq<Event>))
    ensures r.0.None? <==> liveEvents == []
    ensures r.0.None? ==> r.1 == []
    ensures r.0.Some? ==> [r.0.value] + r.1 == liveEvents
  {
    if liveEvents == [] then (None, []) else (Some(liveEvents[0]), liveEvents[1..])
  }

  // ---------------------------------------------------------------------------
  // The views
  // ---------------------------------------------------------------------------

  /** `home(request, page)`. */
  function Home(events: seq<Event>, now: Instant, liveMarginMinutes: int, isActive: bool, page: int): (r: Response)
    ensures r.Render? && r.template == "main/home.html" && r.context.HomeContext?
    ensures r.context.events == PastPage(events, now, liveMarginMinutes, isActive, page)
    ensures r.context.featured == Featured(events)
    ensures r.context.upcoming == UpcomingEvents(events, now, liveMarginMinutes, isActive)
    ensures (r.context.live, r.context.alsoLive) == SplitLive(LiveEvents(events, now, liveMarginMinutes, isActive))
  {
    var (live, alsoLive) := SplitLive(LiveEvents(events, now, liveMarginMinutes, isActive));
    Render("main/home.html", HomeContext(
      PastPage(events, now, liveMarginMinutes, isActive, page),
      Featured(events),
      UpcomingEvents(events, now, liveMarginMinutes, isActive),
      live,
      alsoLive))
  }

  /** `event(request, slug)`: the event with that slug; failing that, a redirect
      through the old-slug table to the event's current slug, or not found. An
      event that is private or only initiated sends an inactive requester to
      the login page. */
  function EventView(store: Store, slug: string, isActive: bool): (r: Response)
    ensures r.Render? ==> r.template == "main/event.html" && r.context.EventContext?
                          && r.context.event in store.events && r.context.event.slug == slug
                          && r.context.featured == Featured(store.events)
    ensures r.Redirect? ==> !r.permanent
  {
    var featured := Featured(store.events);
    match Get(store.events, (e: Event) => e.slug == slug)
    case Raised(DoesNotExist) =>
      (match Get(store.oldSlugs, (o: EventOldSlug) => o.slug == slug)
       case Raised(DoesNotExist) => NotFound
       case Raised(MultipleObjectsReturned) => ServerError(MultipleObjectsReturned)
       case Found(oldSlug) =>
         (match Get(store.events, (e: Event) => e.id == oldSlug.eventId)
          case Found(current) => Redirect(EventPage(current.slug), false)
          case Raised(error) => ServerError(error)))
    case Raised(MultipleObjectsReturned) => ServerError(MultipleObjectsReturned)
    case Found(event) =>
      if (!event.public || event.status == Initiated) && !isActive then
        Redirect(Login, false)
      else
        Render("main/event.html", EventContext(event, featured))
  }

  /** `participant(request, slug)`: the participant with that slug, or not
      found; one not cleared sends every requester to the login page.
      `isActive` is never consulted; it is a parameter so that this can be
      stated. */
  function ParticipantView(store: Store, slug: string, isActive: bool): (r: Response)
    ensures r.Render? ==> r.template == "main/participant.html" && r.context.ParticipantContext?
                          && r.context.participant in store.participants
                          && r.context.participant.slug == slug
                          && r.context.featured == Featured(store.events)
    ensures r.Redirect? ==> r.target == Login && !r.permanent
  {
    match Get(store.participants, (p: Participant) => p.slug == slug)
    case Raised(DoesNotExist) => NotFound
    case Raised(MultipleObjectsReturned) => ServerError(MultipleObjectsReturned)
    case Found(participant) =>
      var featured := Featured(store.events);
      if participant.cleared != ClearedYes then
        Redirect(Login, false)
      else
        Render("main/participant.html", ParticipantContext(participant, featured))
  }
}
