/**
 * The persisted entities and the transfer object of the event service.
 * Fields that the service only copies (event type, date, times) are kept as
 * opaque values; the model never inspects them.
 */
module Entities {
  import opened Wrappers

  type EventType = string
  type Date = string
  type Time = string

  /** The owner of an event; only its id is used (findByUserId). */
  datatype User = User(id: int)

  /** An address row; its natural key is (city, street, number). */
  datatype Address = Address(id: int, city: string, street: string, number: string)

  /** A geographic point row; its natural key is (longitude, latitude). */
  datatype Point = Point(id: int, longitude: real, latitude: real)

  /** A persisted event. An entity built from a DTO has no owner until one is attached. */
  datatype Event = Event(
    id: int,
    name: string,
    eventType: EventType,
    date: Date,
    startingTime: Time,
    endingTime: Time,
    confirm: bool,
    user: Option<User>,
    address: Address,
    point: Point)

  /** The externally visible shape of an event: every field but the owner. */
  datatype EventDto = EventDto(
    id: int,
    name: string,
    eventType: EventType,
    date: Date,
    startingTime: Time,
    endingTime: Time,
    confirm: bool,
    address: Address,
    point: Point)

  function AddressKey(a: Address): (string, string, string)
  {
    (a.city, a.street, a.number)
  }

  function PointKey(p: Point): (real, real)
  {
    (p.longitude, p.latitude)
  }

  function EventName(e: Event): string
  {
    e.name
  }
}
