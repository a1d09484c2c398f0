/** The rows the views of airmozilla.main read: events, the historical slugs of
    renamed events, and participants (speakers). The views never write them. */
module Records {

  datatype Option<T> = None | Some(value: T)

  /** An instant on the UTC time line, in whole seconds. */
  type Instant = int

  /** Scheduling state of an event. The views compare only against
      `Event.STATUS_SCHEDULED` and `Event.STATUS_INITIATED`. */
  datatype Status = Initiated | Scheduled | Removed

  /** One row of the event table. `archiveTime` is set once the recording is
      available; `startTime` is the scheduled start of the live broadcast. */
  datatype Event = Event(
    id: nat,
    slug: string,
    status: Status,
    archiveTime: Option<Instant>,
    startTime: Option<Instant>,
    public: bool,
    featured: bool)

  /** A slug an event used to have, with a foreign key to that event. */
  datatype EventOldSlug = EventOldSlug(slug: string, eventId: nat)

  /** Clearance of a participant. Only `Participant.CLEARED_YES` matters to the
      views; the other codes stay opaque. */
  datatype Clearance = ClearedYes | Uncleared(code: string)

  datatype Participant = Participant(slug: string, cleared: Clearance)

  /** The three tables, each in the order the database returns rows of an
      unordered query. */
  datatype Store = Store(
    events: seq<Event>,
    oldSlugs: seq<EventOldSlug>,
    participants: seq<Participant>)

  /** The uniqueness and referential constraints the database keeps: event ids
      and the three slug columns are unique, and every old slug refers to an
      existing event. */
  predicate Integral(store: Store)
  {
    && (forall i, j :: 0 <= i < j < |store.events| ==>
          store.events[i].id != store.events[j].id && store.events[i].slug != store.events[j].slug)
    && (forall i, j :: 0 <= i < j < |store.oldSlugs| ==> store.oldSlugs[i].slug != store.oldSlugs[j].slug)
    && (forall i, j :: 0 <= i < j < |store.participants| ==>
          store.participants[i].slug != store.participants[j].slug)
    && (forall o :: o in store.oldSlugs ==> exists e :: e in store.events && e.id == o.eventId)
  }
}
