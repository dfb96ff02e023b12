# SASD sports record-keeping: a Dafny model of the controllers

SASD is a small web application for keeping records of sports, of the
events scheduled for each sport, and of the player records (attendance,
points, notes) of each event. Its behaviour lives in two controllers over a
three-table database:

- `SportController` lists sports, shows the sport form, creates or updates a
  sport (id 0 means "create"), and deletes a sport. The database's foreign
  keys are declared `ON DELETE CASCADE`, so the delete also removes the
  sport's events and their player records.
- `SportEventController` shows the master-detail page with previous and next
  links over the events in start-date order. It creates or edits events and
  checks two form rules first: the end may not be before the start, and a
  sport must be picked. It deletes an event together with its player records.
  It shows the player-record form, creates or edits player records, refusing
  to move a record to another event, and deletes player records.

The model is organised as follows:

- `entities.dfy` (module `Entities`) holds the three rows as datatypes, with
  timestamps as integer seconds.
- `results.dfy` (module `Results`) holds the outcomes an action returns:
  `View(name, model)`, `RedirectToAction(action, id)`, `NotFound`,
  `BadRequest`, and `StoreFailure` for a save the database refuses.
- `store.dfy` (module `Store`) holds the database as a class `Database`. It
  has one map per table and one identity counter per table. Its invariant
  `Valid()` states the schema's guarantees: every row sits under its own
  positive id, and both foreign keys name stored rows. The module also holds
  the cascade functions and the lemmas about them.
- `navigation.dfy` (module `Navigation`) holds the master-detail navigation
  as a pure function over the ordered id list, with its lemmas.
- `sport_management.dfy` (module `SportManagement`) and
  `event_management.dfy` (module `EventManagement`) hold the two controllers.
  Each is a class over a shared `Database`, one method per action. Each
  method requires `Valid()`, preserves it, and states its complete new state
  and its result for every branch.
- `scenario.dfy` (module `Scenario`) holds the seed data of the tests. It
  also holds two walks through them: navigating from the first event to the
  next, and deleting the sport Football together with its event and that
  event's two records.

Where the code disagrees with its own messages and tests, the model follows
the code:

- An event whose end equals its start is accepted. The comparison at
  `SASD/Controllers/SportEventController.cs:97` is a strict `<`. Its error
  message "End date must be after start date." (line 99) and the date test's
  `isValid = endDate > startDate` (`Tests/BusinessLogicTests.cs:70`) both read
  as "strictly after".
- The sport form with an unknown id renders the form with a null model
  (`SASD/Controllers/SportController.cs:24-28`), while the event form and all three
  deletes give NotFound for an unknown id. The model keeps the null model.

`NotFound(None)` stands for the bare `NotFound()` result, and
`NotFound(Some(m))` for the one whose body is the message `m`.

## Model

| member | source | states |
|---|---|---|
| `Navigation.IndexOf` | SASD/Controllers/SportEventController.cs:63 | List.IndexOf: -1 exactly when the id is absent, otherwise a position holding the id with no earlier occurrence |
| `Navigation.Navigate` | SASD/Controllers/SportEventController.cs:24-69 | no ids gives HasEvents = false and no current, previous or next id; otherwise HasEvents holds, the current id is always one of the ids, a requested id that is one of them is current, and no id or an unknown id falls back to the first |
| `Navigation.PreviousAndNext` | SASD/Controllers/SportEventController.cs:63-69 | with the current id at position i: previous is the id at i-1 exactly when i > 0, next is the id at i+1 exactly when i is not the last position |
| `Navigation.EndsHaveNoNeighbour` | SASD/Controllers/SportEventController.cs:65-69 | the first event has no previous id and the last event has no next id |
| `Navigation.NextThenPrevious` | Tests/IntegrationTests.cs:123-145 | following the next link and then the previous link returns to the same event |
| `Navigation.PreviousThenNext` | SASD/Controllers/SportEventController.cs:63-69 | following the previous link and then the next link returns to the same event |
| `Store.LoadEvent` | SASD/Controllers/SportEventController.cs:38-41 | on a store whose rows sit under their own keys, the loaded event is the one asked for, its joined sport is the one its SportId names, and its joined player records are exactly the stored records of that event, each under its own id |
| `Store.CascadeRowCount` | SASD/Models/Migrations/20250510133821_InitialCreate.cs:47-76 | deleting a sport with N events owning M records removes exactly N + M + 1 rows |
| `Store.CascadeKeepsLinks` | SASD/Models/Migrations/20250510133821_InitialCreate.cs:47-76 | after the cascade, no event names the deleted sport and no record names a deleted event: both foreign keys still hold |
| `Store.EventRemovalKeepsLinks` | SASD/Controllers/SportEventController.cs:154-161 | removing an event together with its player records leaves no record pointing at a missing event |
| `Store.Database.constructor` | SASD/Models/ApplicationDbContext.cs:5-15 | an empty database with all identity columns at 1 satisfies the schema invariant |
| `SportManagement.SportController.Sports` | SASD/Controllers/SportController.cs:15-19 | the list holds every stored sport exactly once and nothing else; no modifies clause, so the store is unchanged |
| `SportManagement.SportController.CreateEditSportForm` | SASD/Controllers/SportController.cs:22-30 | no id gives no model; a stored id gives the sport under it; an unknown id gives no model and never NotFound |
| `SportManagement.SportController.CreateEditSport` | SASD/Controllers/SportController.cs:34-49 | id 0 adds exactly one sport under a fresh id; another id replaces the whole row under it without adding a row; events and records are unchanged; redirects to "Sports" |
| `SportManagement.SportController.Delete` | SASD/Controllers/SportController.cs:53-61 | an unknown id gives NotFound and changes nothing; a stored id removes the sport, all its events and all their player records, leaves every other row, and redirects to "Sports" |
| `EventManagement.ValidateSportEvent` | SASD/Controllers/SportEventController.cs:97-104 | an "EndDate" error exactly when the end is before the start; a "SportId" error exactly when the sport id is 0; each with its message, at most one error per key and so at most two; no error exactly when neither holds, so an equal end and start are accepted |
| `EventManagement.TemplateNeedsOnlyASport` | SASD/Controllers/SportEventController.cs:88 | the create form's default event (today until two hours later) fails only the sport rule |
| `EventManagement.SportEventController.SportEvents` | SASD/Controllers/SportEventController.cs:20-72 | HasEvents holds exactly when an event is stored; the fallback decided by table lookup agrees with Navigate on the id list; the previous and next ids are Navigate's; the current event is a stored event shown with the sport its SportId names and exactly its own player records; the unreachable branches (lines 54-59) are proved never taken |
| `EventManagement.SportEventController.CreateEditSportEventForm` | SASD/Controllers/SportEventController.cs:76-89 | no id gives the default event starting today; a stored id gives that event; an unknown id gives NotFound |
| `EventManagement.SportEventController.CreateEditSportEvent` | SASD/Controllers/SportEventController.cs:94-140 | any validation error re-renders the form with the submitted event and its errors, storing nothing; id 0 inserts one event under a fresh id and redirects to it; an unknown id gives NotFound; an existing id gets the six editable fields; only the events table changes |
| `EventManagement.SportEventController.DeleteSportEvent` | SASD/Controllers/SportEventController.cs:146-165 | an unknown id gives NotFound and changes nothing; otherwise the event and exactly its player records are removed, sports are unchanged, and the redirect carries no id |
| `EventManagement.SportEventController.CreateEditPlayerRecordForm` | SASD/Controllers/SportEventController.cs:168-185 | NotFound for an unknown event or record; BadRequest for a record of another event; otherwise the stored record or a new one, always carrying the requested SportEventId |
| `EventManagement.SportEventController.CreateEditPlayerRecord` | SASD/Controllers/SportEventController.cs:190-235 | id 0 inserts one record under a fresh id; an unknown id gives NotFound; a changed SportEventId gives BadRequest and changes nothing; otherwise the five editable fields are copied and the stored SportEventId is kept; redirects to the record's event |
| `EventManagement.SportEventController.DeletePlayerRecord` | SASD/Controllers/SportEventController.cs:246-257 | an unknown id gives NotFound; otherwise only that record is removed and the redirect carries its former SportEventId |
| `Scenario.Seed` | Tests/TestBase.cs:21-105 | the seed data (three sports, three events, three player records under explicit ids) satisfies the schema invariant |
| `Scenario.NavigateSeed` | Tests/IntegrationTests.cs:123-145 | on the seed data, the page without an id shows event 1 with no previous and next 2; following the next link shows event 2 with previous 1 and next 3 |
| `Scenario.DeleteSeededSport` | Tests/PresentationTests.cs:99-113 | on the seed data, deleting sport 1 redirects to "Sports" and leaves sports {2, 3}, events {2, 3} and player records {3} |

## Left out

- Entity Framework itself is not modelled: change tracking, `Find`/`Include`, `SaveChangesAsync`. Reads are map lookups and writes are map updates. One request is one all-or-nothing step.
- The async machinery and concurrent requests are left out. Each action runs sequentially on the database.
- `DateTime` is not modelled. Timestamps are integer seconds, and `DateTime.SpecifyKind(..., Utc)` (SportEventController.cs:110-111) is the identity on them. The clock reading `DateTime.Today` (line 88) is the parameter `today`.
- Framework validation from model binding is not modelled. For the event form, ModelState holds only the two explicit rules. For the player-record form it is always valid, so the re-render branch of `CreateEditPlayerRecord` (SportEventController.cs:237-240) is not modelled.
- `ViewBag` contents are left out: the sport lists (lines 78 and 139), the event id (line 170) and the event name (lines 173 and 239). View rendering and anti-forgery checks are left out too.
- The debug logging (SportEventController.cs:196, 213-232) is left out. It has no effect on state.
- The database's ordering is left out. The events ordered by start date are the input `order` of `SportEvents`, and its precondition says `order` is that ordering; ties are left open.
- `SportManagement.SportController.Sports`: the store's enumeration order is left open by the source. The model returns the sports in primary-key order.
- `SportManagement.SportController.CreateEditSport`: it requires an edited id to be stored. Updating a missing row makes the store throw, and that failure is not modelled.
- Store failures are modelled only for foreign-key violations at save time, shown as `StoreFailure` with nothing written. This covers an event naming a missing sport and a new record naming a missing event. Connectivity and other database errors are not modelled.
- Identity sequences are not modelled: the counters are the next unused id, and a fresh id is always the counter's value. In PostgreSQL an insert the foreign key refuses still consumes a sequence value, so the next id can be larger than the model's; only freshness of ids is promised, not their exact values.
- Integer widths are not modelled. Ids and counts are unbounded integers, so overflow of a 32-bit identity column cannot happen in the model.
- The points range 0-100 and the "max players against team size" rule are not modelled. Tests/BusinessLogicTests.cs:14-60 mentions them, but no production code enforces them.
- The migration's `Down` method, its indexes and its column types are not modelled. Only the two cascade rules are.
