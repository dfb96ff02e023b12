/**
  What a controller action hands back to the presentation layer: render a
  named view with a model, redirect to another action (optionally with an id),
  or one of the error outcomes.
 */
module Results {
  import opened Entities

  /** One entry of the form's model state: the field it is keyed to and its message. */
  datatype FieldError = FieldError(key: string, message: string)

  /** The current event of the master-detail page with its eagerly loaded sport and player records. */
  datatype EventDetail = EventDetail(
    event: SportEvent,
    sport: Sport,
    playerRecords: map<int, PlayerRecord>)

  /** The master-detail page: the current event and the ids to move to. */
  datatype DetailViewModel = DetailViewModel(
    currentSportEvent: Option<EventDetail>,
    previousEventId: Option<int>,
    nextEventId: Option<int>,
    hasEvents: bool)

  datatype ViewModel =
    | SportList(sports: seq<Sport>)
      /** The sport form; None is the null model. */
    | SportForm(sport: Option<Sport>)
    | Detail(detail: DetailViewModel)
      /** The event form with the submitted (or loaded) event and the field errors to show. */
    | EventForm(event: SportEvent, errors: seq<FieldError>)
    | RecordForm(record: PlayerRecord)

  datatype ActionResult =
    | View(name: string, model: ViewModel)
    | RedirectToAction(action: string, id: Option<int>)
      /** Not found; None is the bare NotFound() result, Some(m) the one whose body is the message m. */
    | NotFound(body: Option<string>)
    | BadRequest(message: string)
      /** The store refused to save (a foreign key names a missing row); nothing was written. */
    | StoreFailure
}
