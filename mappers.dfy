/** The two mappers between the persisted event and its transfer object, as plain field projections. */
module Mappers {
  import opened Wrappers
  import opened Entities

  /**
   * toDto.map: every field of the event except its owner. The service's
   * results rely on the DTO carrying the event's id, name, confirm flag,
   * address and point.
   */
  function ToDto(e: Event): (d: EventDto)
    ensures d.id == e.id && d.name == e.name && d.confirm == e.confirm
    ensures d.address == e.address && d.point == e.point
  {
    EventDto(e.id, e.name, e.eventType, e.date, e.startingTime, e.endingTime, e.confirm, e.address, e.point)
  }

  /** toEntity.map: an owner-less event carrying exactly the DTO's fields. */
  function ToEntity(d: EventDto): (e: Event)
    ensures e.user == None
    ensures ToDto(e) == d
  {
    Event(d.id, d.name, d.eventType, d.date, d.startingTime, d.endingTime, d.confirm, None, d.address, d.point)
  }

  /**
   * The loop every finder runs over a query result: each row mapped to a DTO
   * and added to a fresh list, so the list keeps the rows' length and order.
   */
  method ToDtoList(rows: seq<Event>) returns (list: seq<EventDto>)
    ensures |list| == |rows|
    ensures forall i :: 0 <= i < |rows| ==> list[i] == ToDto(rows[i])
  {
    list := [];
    for i := 0 to |rows|
      invariant |list| == i
      invariant forall j :: 0 <= j < i ==> list[j] == ToDto(rows[j])
    {
      list := list + [ToDto(rows[i])];
    }
  }
}
