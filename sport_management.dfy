/**
  Sport management: list, form, create-or-update and delete over the Sports
  table. Deleting a sport cascades, through the foreign keys, to its events
  and their player records.
 */
module SportManagement {
  import opened Entities
  import opened Results
  import opened Store

  class SportController {
    const db: Database

    constructor (db: Database)
      ensures this.db == db
    {
      this.db := db;
    }

    /**
      Every stored sport, each once. The store's enumeration order is left
      open by the source; this model scans the table by primary key.
     */
    method Sports() returns (r: ActionResult)
      requires db.Valid()
      ensures r.View? && r.name == "Sports" && r.model.SportList?
      ensures Enumerates(r.model.sports, db.sports)
    {
      var list: seq<Sport> := [];
      var id := 1;
      while id < db.nextSportId
        invariant 1 <= id <= db.nextSportId
        invariant forall i :: 0 <= i < |list| ==> list[i].id in db.sports && db.sports[list[i].id] == list[i]
        invariant forall i :: 0 <= i < |list| ==> list[i].id < id
        invariant forall i, j :: 0 <= i < j < |list| ==> list[i].id < list[j].id
        invariant IdsOf(list) == set k | k in db.sports && k < id
      {
        if id in db.sports {
          assert IdsOf(list + [db.sports[id]]) == IdsOf(list) + {id};
          list := list + [db.sports[id]];
        }
        id := id + 1;
      }
      assert IdsOf(list) == db.sports.Keys;
      IdsOfDistinct(list);
      r := View("Sports", SportList(list));
    }

    /**
      The sport form: no id gives the view without a model; an id gives the
      sport stored under it, or no model when there is none (no NotFound).
     */
    method CreateEditSportForm(id: Option<int>) returns (r: ActionResult)
      requires db.Valid()
      ensures r.View? && r.name == "CreateEditSportForm" && r.model.SportForm?
      ensures id.None? ==> r.model.sport.None?
      ensures id.Some? && id.value !in db.sports ==> r.model.sport.None?
      ensures id.Some? && id.value in db.sports ==> r.model.sport == Some(db.sports[id.value])
      ensures r.model.sport.Some? ==> id == Some(r.model.sport.value.id)
    {
      if id.Some? {
        assert id.value in db.sports ==> db.sports[id.value].id == id.value;
        var sport := if id.value in db.sports then Some(db.sports[id.value]) else None;
        return View("CreateEditSportForm", SportForm(sport));
      }
      r := View("CreateEditSportForm", SportForm(None));
    }

    /**
      Id 0 inserts the sport under a fresh id; any other id replaces the whole
      stored row under that id. Either way the other tables do not change.
     */
    method CreateEditSport(model: Sport) returns (r: ActionResult)
      requires db.Valid()
      requires model.id != UnsetId ==> model.id in db.sports
      modifies db
      ensures db.Valid()
      ensures r == RedirectToAction("Sports", None)
      ensures db.events == old(db.events) && db.records == old(db.records)
      ensures db.nextSportId == if model.id == UnsetId then old(db.nextSportId) + 1 else old(db.nextSportId)
      ensures db.nextEventId == old(db.nextEventId) && db.nextRecordId == old(db.nextRecordId)
      ensures model.id == UnsetId ==>
        && old(db.nextSportId) !in old(db.sports)
        && db.sports == old(db.sports)[old(db.nextSportId) := model.(id := old(db.nextSportId))]
        && |db.sports| == |old(db.sports)| + 1
      ensures model.id != UnsetId ==>
        && db.sports == old(db.sports)[model.id := model]
        && db.sports.Keys == old(db.sports).Keys
    {
      if model.id == UnsetId {
        var newId := db.nextSportId;
        db.sports := db.sports[newId := model.(id := newId)];
        db.nextSportId := newId + 1;
      } else {
        db.sports := db.sports[model.id := model];
      }
      r := RedirectToAction("Sports", None);
    }

    /**
      An unknown id gives NotFound and changes nothing. A stored id removes
      the sport and, by the cascade of both foreign keys, its events and their
      player records.
     */
    method Delete(id: int) returns (r: ActionResult)
      requires db.Valid()
      modifies db
      ensures db.Valid()
      ensures db.nextSportId == old(db.nextSportId) && db.nextEventId == old(db.nextEventId) && db.nextRecordId == old(db.nextRecordId)
      ensures id !in old(db.sports) ==>
        r == NotFound(None) && db.sports == old(db.sports) && db.events == old(db.events) && db.records == old(db.records)
      ensures id in old(db.sports) ==>
        && r == RedirectToAction("Sports", None)
        && db.sports == old(db.sports) - {id}
        && db.events == old(db.events) - EventsOf(old(db.events), id)
        && db.records == old(db.records) - RecordsOf(old(db.records), EventsOf(old(db.events), id))
    {
      if id !in db.sports {
        return NotFound(None);
      }
      CascadeKeepsLinks(db.sports, db.events, db.records, id);
      var doomed := EventsOf(db.events, id);
      db.records := db.records - RecordsOf(db.records, doomed);
      db.events := db.events - doomed;
      db.sports := db.sports - {id};
      r := RedirectToAction("Sports", None);
    }
  }
}
