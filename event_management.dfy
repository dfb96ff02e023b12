/**
  Event and player-record management: the master-detail page over the events,
  create-or-edit and delete of events (with their player records), and the
  form, create-or-edit and delete of player records.
 */
module EventManagement {
  import opened Entities
  import opened Results
  import opened Store
  import Navigation

  /** The default length of a new event, in seconds. */
  const TwoHours: int := 2 * 60 * 60

  const EndDateMessage: string := "End date must be after start date."
  const SportIdMessage: string := "Please select a sport."

  /** The fields that carry at least one error (ModelState's keys). */
  function ErrorKeys(errors: seq<FieldError>): set<string>
  {
    set e | e in errors :: e.key
  }

  /**
    The two explicit rules on a submitted event, accumulated in order: an end
    before the start is an "EndDate" error, and sport id 0 (no sport picked) is
    a "SportId" error. An end equal to the start is accepted.
   */
  function ValidateSportEvent(model: SportEvent): (errors: seq<FieldError>)
    ensures "EndDate" in ErrorKeys(errors) <==> model.endDate < model.startDate
    ensures "SportId" in ErrorKeys(errors) <==> model.sportId == UnsetId
    ensures errors == [] <==> model.startDate <= model.endDate && model.sportId != UnsetId
    ensures forall e :: e in errors ==> e == FieldError("EndDate", EndDateMessage) || e == FieldError("SportId", SportIdMessage)
    ensures |errors| <= 2
    ensures forall i, j :: 0 <= i < j < |errors| ==> errors[i].key != errors[j].key
  {
    (if model.endDate < model.startDate then [FieldError("EndDate", EndDateMessage)] else [])
    + (if model.sportId == UnsetId then [FieldError("SportId", SportIdMessage)] else [])
  }

  /** The event the create form starts from: today until two hours later, no sport chosen. */
  function NewEventTemplate(today: int): SportEvent
  {
    SportEvent(UnsetId, "", today, today + TwoHours, 0, "", UnsetId)
  }

  /** The only thing the create form's template lacks is a sport. */
  lemma TemplateNeedsOnlyASport(today: int)
    ensures ValidateSportEvent(NewEventTemplate(today)) == [FieldError("SportId", SportIdMessage)]
  {
  }

  class SportEventController {
    const db: Database

    constructor (db: Database)
      ensures this.db == db
    {
      this.db := db;
    }

    /**
      The master-detail page. order is every event id in start-date order, as
      the store returns it. The requested id is used when it is a stored event,
      otherwise the first id; the previous and next ids come from its position.
      The result is the one Navigation.Navigate computes from the id list, with
      the current event loaded together with its sport and player records.
     */
    method SportEvents(order: seq<int>, id: Option<int>) returns (r: ActionResult)
      requires db.Valid()
      requires InStartDateOrder(order, db.events)
      ensures r.View? && r.name == "SportEvents" && r.model.Detail?
      ensures r.model.detail.hasEvents <==> db.events != map[]
      ensures id.Some? && id.value in db.events ==>
        r.model.detail.currentSportEvent.Some? && r.model.detail.currentSportEvent.value.event.id == id.value
      ensures
        var nav, vm := Navigation.Navigate(order, id), r.model.detail;
        && vm.hasEvents == nav.hasEvents
        && vm.previousEventId == nav.previousEventId
        && vm.nextEventId == nav.nextEventId
        && (nav.currentId.None? ==> vm.currentSportEvent.None?)
        && (nav.currentId.Some? ==>
              vm.currentSportEvent == Some(LoadEvent(db.sports, db.events, db.records, nav.currentId.value)))
      ensures r.model.detail.currentSportEvent.Some? ==>
        var d := r.model.detail.currentSportEvent.value;
        && d.event.id in db.events && db.events[d.event.id] == d.event
        && d.sport.id == d.event.sportId
        && (forall k :: k in d.playerRecords ==> d.playerRecords[k].sportEventId == d.event.id)
        && (forall k :: k in db.records && db.records[k].sportEventId == d.event.id ==> k in d.playerRecords)
    {
      if |order| == 0 {
        assert forall k :: k in db.events ==> k in order;
        assert db.events.Keys == {};
        return View("SportEvents", Detail(DetailViewModel(None, None, None, false)));
      }
      assert order[0] in order;
      var currentId := if id.Some? then id.value else order[0];
      if currentId !in db.events {
        // The id list is not empty here, so the source's branch for "no events
        // at all" cannot run, and its first id is a stored event, so the
        // second lookup always succeeds and its NotFound is never returned.
        currentId := order[0];
      }
      var current := LoadEvent(db.sports, db.events, db.records, currentId);
      var index := Navigation.IndexOf(order, currentId);
      var previousId := if index > 0 then Some(order[index - 1]) else None;
      var nextId := if index < |order| - 1 then Some(order[index + 1]) else None;
      r := View("SportEvents", Detail(DetailViewModel(Some(current), previousId, nextId, true)));
    }

    /**
      The event form: no id gives the template starting today; a stored id
      gives that event; an unknown id gives NotFound.
     */
    method CreateEditSportEventForm(id: Option<int>, today: int) returns (r: ActionResult)
      requires db.Valid()
      ensures id.None? ==> r == View("CreateEditSportEventForm", EventForm(NewEventTemplate(today), []))
      ensures id.Some? && id.value !in db.events ==> r == NotFound(None)
      ensures id.Some? && id.value in db.events ==> r == View("CreateEditSportEventForm", EventForm(db.events[id.value], []))
      ensures r.View? ==> r.model.EventForm? && r.model.event.id == if id.Some? then id.value else UnsetId
    {
      if id.Some? {
        if id.value !in db.events {
          return NotFound(None);
        }
        return View("CreateEditSportEventForm", EventForm(db.events[id.value], []));
      }
      r := View("CreateEditSportEventForm", EventForm(NewEventTemplate(today), []));
    }

    /**
      Submitting the event form. With a validation error nothing is stored and
      the form comes back with the submitted event and its errors. Otherwise id
      0 inserts the event under a fresh id and an existing id has its six
      editable fields overwritten; an unknown id gives NotFound, and a sport id
      naming no stored sport makes the store refuse the save. On success the
      page shows the saved event.
     */
    method CreateEditSportEvent(model: SportEvent) returns (r: ActionResult)
      requires db.Valid()
      modifies db
      ensures db.Valid()
      ensures db.sports == old(db.sports) && db.records == old(db.records)
      ensures db.nextSportId == old(db.nextSportId) && db.nextRecordId == old(db.nextRecordId)
      ensures db.nextEventId ==
        if ValidateSportEvent(model) == [] && model.id == UnsetId && model.sportId in old(db.sports)
        then old(db.nextEventId) + 1 else old(db.nextEventId)
      ensures ValidateSportEvent(model) != [] ==>
        && r == View("CreateEditSportEventForm", EventForm(model, ValidateSportEvent(model)))
        && db.events == old(db.events)
      ensures ValidateSportEvent(model) == [] && model.id == UnsetId && model.sportId !in old(db.sports) ==>
        r == StoreFailure && db.events == old(db.events)
      ensures ValidateSportEvent(model) == [] && model.id == UnsetId && model.sportId in old(db.sports) ==>
        && old(db.nextEventId) !in old(db.events)
        && db.events == old(db.events)[old(db.nextEventId) := model.(id := old(db.nextEventId))]
        && r == RedirectToAction("SportEvents", Some(old(db.nextEventId)))
      ensures ValidateSportEvent(model) == [] && model.id != UnsetId && model.id !in old(db.events) ==>
        r == NotFound(None) && db.events == old(db.events)
      ensures ValidateSportEvent(model) == [] && model.id != UnsetId && model.id in old(db.events) ==>
        if model.sportId !in old(db.sports) then
          r == StoreFailure && db.events == old(db.events)
        else
          && db.events == old(db.events)[model.id := model]
          && r == RedirectToAction("SportEvents", Some(model.id))
    {
      var errors := ValidateSportEvent(model);
      if errors != [] {
        return View("CreateEditSportEventForm", EventForm(model, errors));
      }
      if model.id == UnsetId {
        if model.sportId !in db.sports {
          return StoreFailure;
        }
        var newId := db.nextEventId;
        db.events := db.events[newId := model.(id := newId)];
        db.nextEventId := newId + 1;
        return RedirectToAction("SportEvents", Some(newId));
      }
      if model.id !in db.events {
        return NotFound(None);
      }
      if model.sportId !in db.sports {
        return StoreFailure;
      }
      var stored := db.events[model.id];
      stored := stored.(name := model.name, startDate := model.startDate, endDate := model.endDate,
                        maxNoOfPlayers := model.maxNoOfPlayers, location := model.location, sportId := model.sportId);
      db.events := db.events[model.id := stored];
      r := RedirectToAction("SportEvents", Some(model.id));
    }

    /**
      Deleting an event: an unknown id gives NotFound and changes nothing;
      otherwise the event and every player record of it are removed and the
      page goes back to its default event.
     */
    method DeleteSportEvent(id: int) returns (r: ActionResult)
      requires db.Valid()
      modifies db
      ensures db.Valid()
      ensures db.nextSportId == old(db.nextSportId) && db.nextEventId == old(db.nextEventId) && db.nextRecordId == old(db.nextRecordId)
      ensures db.sports == old(db.sports)
      ensures id !in old(db.events) ==>
        r == NotFound(None) && db.events == old(db.events) && db.records == old(db.records)
      ensures id in old(db.events) ==>
        && r == RedirectToAction("SportEvents", None)
        && db.events == old(db.events) - {id}
        && db.records == old(db.records) - RecordsOf(old(db.records), {id})
    {
      if id !in db.events {
        return NotFound(None);
      }
      EventRemovalKeepsLinks(db.sports, db.events, db.records, id);
      db.records := db.records - RecordsOf(db.records, {id});
      db.events := db.events - {id};
      r := RedirectToAction("SportEvents", None);
    }

    /**
      The player-record form for an event: an unknown event or record gives
      NotFound, a record of another event gives BadRequest, and otherwise the
      form shows the stored record or a new one for the event.
     */
    method CreateEditPlayerRecordForm(id: Option<int>, sportEventId: int) returns (r: ActionResult)
      requires db.Valid()
      ensures sportEventId !in db.events ==> r == NotFound(Some("Sport Event not found."))
      ensures sportEventId in db.events && id.Some? && id.value !in db.records ==>
        r == NotFound(Some("Player Record not found."))
      ensures sportEventId in db.events && id.Some? && id.value in db.records ==>
        if db.records[id.value].sportEventId != sportEventId then
          r == BadRequest("Record does not belong to this event.")
        else
          r == View("CreateEditPlayerRecordForm", RecordForm(db.records[id.value]))
      ensures sportEventId in db.events && id.None? ==>
        r == View("CreateEditPlayerRecordForm", RecordForm(PlayerRecord(UnsetId, "", "", 0, false, "", sportEventId)))
      ensures r.View? ==> r.model.RecordForm? && r.model.record.sportEventId == sportEventId
    {
      if sportEventId !in db.events {
        return NotFound(Some("Sport Event not found."));
      }
      if id.Some? {
        if id.value !in db.records {
          return NotFound(Some("Player Record not found."));
        }
        var record := db.records[id.value];
        if record.sportEventId != sportEventId {
          return BadRequest("Record does not belong to this event.");
        }
        return View("CreateEditPlayerRecordForm", RecordForm(record));
      }
      r := View("CreateEditPlayerRecordForm", RecordForm(PlayerRecord(UnsetId, "", "", 0, false, "", sportEventId)));
    }

    /**
      Submitting the player-record form. Id 0 inserts the record under a fresh
      id (the store refuses a record of no stored event). An existing id has
      its five editable fields overwritten, but only if the submission keeps
      the stored event; moving the record to another event is a BadRequest
      that changes nothing. On success the page shows the record's event.
     */
    method CreateEditPlayerRecord(model: PlayerRecord) returns (r: ActionResult)
      requires db.Valid()
      modifies db
      ensures db.Valid()
      ensures db.sports == old(db.sports) && db.events == old(db.events)
      ensures db.nextSportId == old(db.nextSportId) && db.nextEventId == old(db.nextEventId)
      ensures db.nextRecordId == if model.id == UnsetId && model.sportEventId in old(db.events) then old(db.nextRecordId) + 1 else old(db.nextRecordId)
      ensures model.id == UnsetId && model.sportEventId !in old(db.events) ==>
        r == StoreFailure && db.records == old(db.records)
      ensures model.id == UnsetId && model.sportEventId in old(db.events) ==>
        && old(db.nextRecordId) !in old(db.records)
        && db.records == old(db.records)[old(db.nextRecordId) := model.(id := old(db.nextRecordId))]
        && r == RedirectToAction("SportEvents", Some(model.sportEventId))
      ensures model.id != UnsetId && model.id !in old(db.records) ==>
        r == NotFound(None) && db.records == old(db.records)
      ensures model.id != UnsetId && model.id in old(db.records) ==>
        if old(db.records)[model.id].sportEventId != model.sportEventId then
          && r == BadRequest("Cannot change the Sport Event association for this record.")
          && db.records == old(db.records)
        else
          && db.records == old(db.records)[model.id := model]
          && r == RedirectToAction("SportEvents", Some(old(db.records)[model.id].sportEventId))
    {
      if model.id == UnsetId {
        if model.sportEventId !in db.events {
          return StoreFailure;
        }
        var newId := db.nextRecordId;
        db.records := db.records[newId := model.(id := newId)];
        db.nextRecordId := newId + 1;
        return RedirectToAction("SportEvents", Some(model.sportEventId));
      }
      if model.id !in db.records {
        return NotFound(None);
      }
      var stored := db.records[model.id];
      if stored.sportEventId != model.sportEventId {
        return BadRequest("Cannot change the Sport Event association for this record.");
      }
      stored := stored.(playerName := model.playerName, playerSurname := model.playerSurname,
                        noOfPoints := model.noOfPoints, arrived := model.arrived, description := model.description);
      db.records := db.records[model.id := stored];
      r := RedirectToAction("SportEvents", Some(model.sportEventId));
    }

    /**
      Deleting a player record: an unknown id gives NotFound; otherwise only
      that record is removed and the page shows the event it belonged to.
     */
    method DeletePlayerRecord(id: int) returns (r: ActionResult)
      requires db.Valid()
      modifies db
      ensures db.Valid()
      ensures db.nextSportId == old(db.nextSportId) && db.nextEventId == old(db.nextEventId) && db.nextRecordId == old(db.nextRecordId)
      ensures db.sports == old(db.sports) && db.events == old(db.events)
      ensures id !in old(db.records) ==> r == NotFound(None) && db.records == old(db.records)
      ensures id in old(db.records) ==>
        && r == RedirectToAction("SportEvents", Some(old(db.records)[id].sportEventId))
        && db.records == old(db.records) - {id}
    {
      if id !in db.records {
        return NotFound(None);
      }
      var sportEventIdToRedirect := db.records[id].sportEventId;
      db.records := db.records - {id};
      r := RedirectToAction("SportEvents", Some(sportEventIdToRedirect));
    }
  }
}
