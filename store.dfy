/**
  The persistent store: the three tables of the application database held as
  maps from primary key to row, with one identity counter per table. The
  invariant Valid() collects what the database schema guarantees: every row
  is stored under its own positive id below its table's counter, and both
  foreign keys (SportEvents.SportId, PlayerRecords.SportEventId) name a row
  that exists. Both foreign keys are declared ON DELETE CASCADE.
 */
module Store {
  import opened Entities
  import opened Results
  import Navigation

  /** Both foreign keys point at stored rows. */
  ghost predicate Linked(sports: map<int, Sport>, events: map<int, SportEvent>, records: map<int, PlayerRecord>)
  {
    && (forall k :: k in events ==> events[k].sportId in sports)
    && (forall k :: k in records ==> records[k].sportEventId in events)
  }

  /** The ids of the events that belong to the given sport. */
  function EventsOf(events: map<int, SportEvent>, sportId: int): set<int>
  {
    set k | k in events && events[k].sportId == sportId
  }

  /** The ids of the player records that belong to one of the given events. */
  function RecordsOf(records: map<int, PlayerRecord>, eventIds: set<int>): set<int>
  {
    set k | k in records && records[k].sportEventId in eventIds
  }

  /**
    Every row of each table is stored under its own primary key. The store
    keeps this; the join below relies on it.
   */
  ghost predicate KeyedById(sports: map<int, Sport>, events: map<int, SportEvent>, records: map<int, PlayerRecord>)
  {
    && (forall k :: k in sports ==> sports[k].id == k)
    && (forall k :: k in events ==> events[k].id == k)
    && (forall k :: k in records ==> records[k].id == k)
  }

  /**
    The current event of the master-detail page with its sport and player
    records joined in: the event asked for, the sport its SportId names, and
    exactly the stored records of that event, each under its own id.
   */
  function LoadEvent(sports: map<int, Sport>, events: map<int, SportEvent>, records: map<int, PlayerRecord>, id: int): (d: EventDetail)
    requires id in events && events[id].sportId in sports
    requires KeyedById(sports, events, records)
    ensures d.event.id == id && events[d.event.id] == d.event
    ensures d.sport.id == d.event.sportId && sports[d.sport.id] == d.sport
    ensures forall k :: k in d.playerRecords <==> k in records && records[k].sportEventId == d.event.id
    ensures forall k :: k in d.playerRecords ==> d.playerRecords[k] == records[k] && d.playerRecords[k].id == k
  {
    EventDetail(events[id], sports[events[id].sportId],
                map k | k in RecordsOf(records, {id}) :: records[k])
  }

  /**
    order lists every stored event id exactly once, by ascending start date;
    the order among equal start dates is left open.
   */
  ghost predicate InStartDateOrder(order: seq<int>, events: map<int, SportEvent>)
  {
    && Navigation.Distinct(order)
    && (forall k :: k in order <==> k in events)
    && (forall i, j :: 0 <= i < j < |order| ==> events[order[i]].startDate <= events[order[j]].startDate)
  }

  /** The ids of the sports in a list. */
  function IdsOf(list: seq<Sport>): set<int>
  {
    set s | s in list :: s.id
  }

  /** list holds every row of table exactly once. */
  ghost predicate Enumerates(list: seq<Sport>, table: map<int, Sport>)
  {
    && |list| == |table|
    && IdsOf(list) == table.Keys
    && (forall i :: 0 <= i < |list| ==> list[i].id in table && table[list[i].id] == list[i])
    && (forall i, j :: 0 <= i < j < |list| ==> list[i].id != list[j].id)
  }

  /** A list of sports with pairwise different ids has as many ids as entries. */
  lemma {:induction false} IdsOfDistinct(list: seq<Sport>)
    requires forall i, j :: 0 <= i < j < |list| ==> list[i].id != list[j].id
    ensures |IdsOf(list)| == |list|
  {
    if |list| > 0 {
      var init, last := list[..|list| - 1], list[|list| - 1];
      IdsOfDistinct(init);
      assert list == init + [last];
      assert IdsOf(list) == IdsOf(init) + {last.id};
      assert forall s :: s in init ==> s.id != last.id;
    }
  }

  /** Removing a set of keys that are all present shrinks a map by exactly that many rows. */
  lemma RemoveSize<V>(m: map<int, V>, s: set<int>)
    requires s <= m.Keys
    ensures |m - s| == |m| - |s|
  {
    assert (m - s).Keys == m.Keys - s;
    assert m.Keys == (m.Keys - s) + s;
  }

  /**
    Deleting a sport with the cascade of both foreign keys removes the sport,
    its N events and the M player records of those events: N + M + 1 rows.
   */
  lemma CascadeRowCount(sports: map<int, Sport>, events: map<int, SportEvent>, records: map<int, PlayerRecord>, sportId: int)
    requires sportId in sports
    ensures var doomed := EventsOf(events, sportId);
      |sports - {sportId}| + |events - doomed| + |records - RecordsOf(records, doomed)|
      == |sports| + |events| + |records| - (1 + |doomed| + |RecordsOf(records, doomed)|)
  {
    var doomed := EventsOf(events, sportId);
    RemoveSize(sports, {sportId});
    RemoveSize(events, doomed);
    RemoveSize(records, RecordsOf(records, doomed));
  }

  /** The cascade leaves no event of the deleted sport and no record of a deleted event dangling. */
  lemma CascadeKeepsLinks(sports: map<int, Sport>, events: map<int, SportEvent>, records: map<int, PlayerRecord>, sportId: int)
    requires Linked(sports, events, records)
    ensures var doomed := EventsOf(events, sportId);
      Linked(sports - {sportId}, events - doomed, records - RecordsOf(records, doomed))
  {
  }

  /** Deleting one event together with its player records leaves no record dangling. */
  lemma EventRemovalKeepsLinks(sports: map<int, Sport>, events: map<int, SportEvent>, records: map<int, PlayerRecord>, eventId: int)
    requires Linked(sports, events, records)
    ensures Linked(sports, events - {eventId}, records - RecordsOf(records, {eventId}))
  {
  }

  class Database {
    var sports: map<int, Sport>
    var events: map<int, SportEvent>
    var records: map<int, PlayerRecord>
    /** Each table's next unused id: every stored key lies below it. */
    var nextSportId: int
    var nextEventId: int
    var nextRecordId: int

    ghost predicate Valid()
      reads this
    {
      && 0 < nextSportId && 0 < nextEventId && 0 < nextRecordId
      && (forall k :: k in sports ==> 0 < k < nextSportId)
      && (forall k :: k in events ==> 0 < k < nextEventId)
      && (forall k :: k in records ==> 0 < k < nextRecordId)
      && KeyedById(sports, events, records)
      && Linked(sports, events, records)
    }

    /** An empty database; every identity column starts at 1. */
    constructor ()
      ensures Valid()
      ensures sports == map[] && events == map[] && records == map[]
      ensures nextSportId == 1 && nextEventId == 1 && nextRecordId == 1
    {
      sports, events, records := map[], map[], map[];
      nextSportId, nextEventId, nextRecordId := 1, 1, 1;
    }
  }
}
