/**
  The seeded data set of the repository's tests (three sports, an event for
  each on the next three days, two player records of the first event and one
  of the second), followed by the master-detail walk and the cascading delete
  of a sport: what the controllers' contracts let a caller conclude.
 */
module Scenario {
  import opened Entities
  import opened Results
  import opened Store
  import SportManagement
  import EventManagement

  const Day: int := 24 * 60 * 60

  /** The seed rows of the tests, stored under their explicit ids. */
  method Seed(now: int) returns (db: Database)
    ensures fresh(db) && db.Valid()
    ensures db.sports == map[
      1 := Sport(1, "Football", 11, 100, Team),
      2 := Sport(2, "Tennis", 1, 50, Individual),
      3 := Sport(3, "Basketball", 5, 80, Team)]
    ensures db.events == map[
      1 := SportEvent(1, "Championship Final", now + Day, now + Day + 7200, 22, "Stadium A", 1),
      2 := SportEvent(2, "Tennis Tournament", now + 2 * Day, now + 2 * Day + 10800, 2, "Court 1", 2),
      3 := SportEvent(3, "Basketball League", now + 3 * Day, now + 3 * Day + 7200, 10, "Gym B", 3)]
    ensures db.records == map[
      1 := PlayerRecord(1, "John", "Doe", 85, true, "Star player", 1),
      2 := PlayerRecord(2, "Jane", "Smith", 92, false, "Top scorer", 1),
      3 := PlayerRecord(3, "Mike", "Johnson", 78, true, "Reliable defender", 2)]
  {
    db := new Database();
    db.sports := map[
      1 := Sport(1, "Football", 11, 100, Team),
      2 := Sport(2, "Tennis", 1, 50, Individual),
      3 := Sport(3, "Basketball", 5, 80, Team)];
    db.events := map[
      1 := SportEvent(1, "Championship Final", now + Day, now + Day + 7200, 22, "Stadium A", 1),
      2 := SportEvent(2, "Tennis Tournament", now + 2 * Day, now + 2 * Day + 10800, 2, "Court 1", 2),
      3 := SportEvent(3, "Basketball League", now + 3 * Day, now + 3 * Day + 7200, 10, "Gym B", 3)];
    db.records := map[
      1 := PlayerRecord(1, "John", "Doe", 85, true, "Star player", 1),
      2 := PlayerRecord(2, "Jane", "Smith", 92, false, "Top scorer", 1),
      3 := PlayerRecord(3, "Mike", "Johnson", 78, true, "Reliable defender", 2)];
    db.nextSportId, db.nextEventId, db.nextRecordId := 4, 4, 4;
  }

  /**
    Without an id the page shows the earliest event, with no previous link and
    a next link; following that link shows the second event, which links back.
   */
  method NavigateSeed(now: int) returns (first: ActionResult, next: ActionResult)
    ensures first.View? && first.model.Detail?
    ensures first.model.detail.currentSportEvent.Some? && first.model.detail.currentSportEvent.value.event.id == 1
    ensures first.model.detail.previousEventId == None && first.model.detail.nextEventId == Some(2)
    ensures next.View? && next.model.Detail?
    ensures next.model.detail.currentSportEvent.Some? && next.model.detail.currentSportEvent.value.event.id == 2
    ensures next.model.detail.previousEventId == Some(1) && next.model.detail.nextEventId == Some(3)
  {
    var db := Seed(now);
    var events := new EventManagement.SportEventController(db);
    var order := [1, 2, 3];
    assert InStartDateOrder(order, db.events);
    first := events.SportEvents(order, None);
    next := events.SportEvents(order, first.model.detail.nextEventId);
  }

  /**
    Deleting Football removes it, its one event and that event's two player
    records; the other sports, events and records stay.
   */
  method DeleteSeededSport(now: int) returns (r: ActionResult, sportIds: set<int>, eventIds: set<int>, recordIds: set<int>)
    ensures r == RedirectToAction("Sports", None)
    ensures sportIds == {2, 3} && eventIds == {2, 3} && recordIds == {3}
  {
    var db := Seed(now);
    var sports := new SportManagement.SportController(db);
    assert EventsOf(db.events, 1) == {1};
    assert RecordsOf(db.records, {1}) == {1, 2};
    r := sports.Delete(1);
    sportIds, eventIds, recordIds := db.sports.Keys, db.events.Keys, db.records.Keys;
  }
}
