/**
  The three persisted entities of the sports record-keeping application, as
  plain values. Identifiers are integers; 0 is the "not yet stored" sentinel
  that the create-or-edit actions test for. Timestamps are integer seconds.
  The navigation properties of the source entities (an event's Sport and its
  PlayerRecords, a record's SportEvent) are not stored in the rows: they are
  looked up through the foreign-key fields.
 */
module Entities {

  datatype Option<+T> = None | Some(value: T)

  /** Whether a sport is played by teams or by individuals. */
  datatype SportType = Team | Individual

  /** A row of the Sports table. */
  datatype Sport = Sport(
    id: int,
    name: string,
    noOfPlayers: int,
    noOfSubscriptions: int,
    sportType: SportType)

  /** A row of the SportEvents table; sportId is a foreign key into Sports. */
  datatype SportEvent = SportEvent(
    id: int,
    name: string,
    startDate: int,
    endDate: int,
    maxNoOfPlayers: int,
    location: string,
    sportId: int)

  /** A row of the PlayerRecords table; sportEventId is a foreign key into SportEvents. */
  datatype PlayerRecord = PlayerRecord(
    id: int,
    playerName: string,
    playerSurname: string,
    noOfPoints: int,
    arrived: bool,
    description: string,
    sportEventId: int)

  /** The identifier value that marks a submitted form as "create", not "edit". */
  const UnsetId: int := 0
}
