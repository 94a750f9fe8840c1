/**
 * EventServiceImpl: the event service over an event table, the known
 * addresses and the known points. Repository calls are updates and queries
 * of the fields below; saving an event also persists an address or point
 * row it did not find (the entity's cascade), which is what makes the next
 * lookup by the same natural key find it.
 */
module Service {
  import opened Wrappers
  import opened Entities
  import opened Mappers
  import opened EventStore

  /** EventNotFound: findById's failure. NullEvent: updateEvent dereferencing a missing row. */
  datatype Error = EventNotFound(id: int) | NullEvent(id: int)

  /**
   * The store's invariant: each event is filed under its own id, below the
   * next id to be given; the listing order holds every stored id once; no two
   * known addresses (points) share a natural key; and every stored event's
   * address and point are known rows.
   */
  ghost predicate Consistent(events: map<int, Event>, ids: seq<int>, nextId: int,
                             addresses: seq<Address>, points: seq<Point>)
  {
    && (forall k :: k in events ==> events[k].id == k && k < nextId)
    && Distinct(ids)
    && (forall i :: 0 <= i < |ids| ==> ids[i] in events)
    && (forall k :: k in events ==> k in ids)
    && KeysUnique(addresses, AddressKey)
    && KeysUnique(points, PointKey)
    && (forall k :: k in events ==> events[k].address in addresses && events[k].point in points)
  }

  /**
   * Storing an event `e` under its own id, which is either a stored id or the
   * next fresh one, together with grown address and point collections that
   * keep their keys unique and hold e's rows, keeps the store consistent.
   */
  lemma StoreKeepsConsistent(events: map<int, Event>, ids: seq<int>, nextId: int,
                             addresses: seq<Address>, points: seq<Point>,
                             e: Event, addresses': seq<Address>, points': seq<Point>)
    requires Consistent(events, ids, nextId, addresses, points)
    requires e.id in events || e.id == nextId
    requires KeysUnique(addresses', AddressKey) && KeysUnique(points', PointKey)
    requires forall a :: a in addresses ==> a in addresses'
    requires forall p :: p in points ==> p in points'
    requires e.address in addresses' && e.point in points'
    ensures e.id in events ==> Consistent(events[e.id := e], ids, nextId, addresses', points')
    ensures e.id !in events ==> Consistent(events[e.id := e], ids + [e.id], nextId + 1, addresses', points')
  {
  }

  class EventService {
    /** The event table, by id. */
    var events: map<int, Event>
    /** The order in which the store lists the events (insertion order). */
    var ids: seq<int>
    /** The id the store gives the next saved event. */
    var nextId: int
    /** The known address rows. */
    var addresses: seq<Address>
    /** The known point rows. */
    var points: seq<Point>

    ghost predicate Valid()
      reads this
    {
      Consistent(events, ids, nextId, addresses, points)
    }

    /** An empty store. */
    constructor ()
      ensures Valid()
      ensures events == map[] && ids == [] && nextId == 0 && addresses == [] && points == []
    {
      events, ids, nextId := map[], [], 0;
      addresses, points := [], [];
    }

    /** eventRepository.findAll(): the stored events in store order, each exactly once. */
    function All(): (rows: seq<Event>)
      reads this
      requires Valid()
      ensures forall e :: e in rows <==> exists k :: k in events && events[k] == e
    {
      RowsHoldTable(ids, events);
      Rows(ids, events)
    }

    /** findById: the mapped event, or EventNotFound when the id is not stored. */
    function FindById(id: int): (r: Result<EventDto, Error>)
      reads this
      requires Valid()
      ensures r.Failure? <==> id !in events
      ensures r.Failure? ==> r.error == EventNotFound(id)
      ensures r.Success? ==> r.value == ToDto(events[id]) && r.value.id == id
    {
      if id in events then Success(ToDto(events[id])) else Failure(EventNotFound(id))
    }

    /** getAddress: the known address with the DTO address's (city, street, number), if any. */
    function GetAddress(dto: EventDto): (r: Option<Address>)
      reads this
      requires Valid()
      ensures r.Some? ==> r.value in addresses && AddressKey(r.value) == AddressKey(dto.address)
      ensures r.None? <==> forall a :: a in addresses ==> AddressKey(a) != AddressKey(dto.address)
      ensures forall a :: a in addresses && AddressKey(a) == AddressKey(dto.address) ==> r == Some(a)
    {
      UniqueLookup(addresses, AddressKey);
      FirstWithKey(addresses, AddressKey, AddressKey(dto.address))
    }

    /** getPoint: the known point with the DTO point's (longitude, latitude), if any. */
    function GetPoint(dto: EventDto): (r: Option<Point>)
      reads this
      requires Valid()
      ensures r.Some? ==> r.value in points && PointKey(r.value) == PointKey(dto.point)
      ensures r.None? <==> forall p :: p in points ==> PointKey(p) != PointKey(dto.point)
      ensures forall p :: p in points && PointKey(p) == PointKey(dto.point) ==> r == Some(p)
    {
      UniqueLookup(points, PointKey);
      FirstWithKey(points, PointKey, PointKey(dto.point))
    }

    /** isEventExist: whether some stored event has the DTO's name. */
    function IsEventExist(dto: EventDto): (b: bool)
      reads this
      requires Valid()
      ensures b <==> exists k :: k in events && events[k].name == dto.name
    {
      var name := ToEntity(dto).name;
      NamedRowExists(ids, events, name);
      FirstWithKey(Rows(ids, events), EventName, name).Some?
    }

    /**
     * saveEvent: the DTO's event, owned by `user`, with the known address and
     * point of the same natural keys when there are some and the supplied ones
     * otherwise, stored under a fresh id; the result is the stored event mapped.
     */
    method SaveEvent(user: User, dto: EventDto) returns (saved: EventDto)
      requires Valid()
      modifies this
      ensures Valid()
      ensures saved.id == old(nextId) && saved.id !in old(events) && nextId == old(nextId) + 1
      ensures saved.id in events && events == old(events)[saved.id := events[saved.id]]
      ensures ids == old(ids) + [saved.id]
      ensures saved == ToDto(events[saved.id])
      ensures events[saved.id].user == Some(user)
      ensures events[saved.id] == ToEntity(dto).(id := saved.id, user := Some(user),
                                                address := events[saved.id].address,
                                                point := events[saved.id].point)
      ensures old(GetAddress(dto)).Some? ==> events[saved.id].address == old(GetAddress(dto)).value
      ensures old(GetAddress(dto)).None? ==> events[saved.id].address == dto.address
      ensures old(GetPoint(dto)).Some? ==> events[saved.id].point == old(GetPoint(dto)).value
      ensures old(GetPoint(dto)).None? ==> events[saved.id].point == dto.point
      ensures addresses == old(addresses) + (if old(GetAddress(dto)).None? then [dto.address] else [])
      ensures points == old(points) + (if old(GetPoint(dto)).None? then [dto.point] else [])
      ensures GetAddress(dto) == Some(events[saved.id].address)
      ensures GetPoint(dto) == Some(events[saved.id].point)
    {
      var event := ToEntity(dto);
      event := event.(user := Some(user));

      var address := GetAddress(dto);
      if address.None? {
        event := event.(address := dto.address);
      } else {
        event := event.(address := address.value);
      }

      var point := GetPoint(dto);
      if point.None? {
        event := event.(point := dto.point);
      } else {
        event := event.(point := point.value);
      }

      // eventRepository.save(event)
      PersistRows(event.address, event.point);
      var id := Insert(event);
      saved := ToDto(events[id]);
    }

    /**
     * updateEvent: the stored event with the DTO's name, type, date and times
     * and a re-resolved address and point; its id, confirm flag and owner are
     * kept and no other event changes. A missing id fails as the source's null
     * dereference does, before anything is changed.
     */
    method UpdateEvent(id: int, dto: EventDto) returns (r: Result<EventDto, Error>)
      requires Valid()
      modifies this
      ensures Valid()
      ensures id !in old(events) ==> r == Failure(NullEvent(id)) && unchanged(this)
      ensures id in old(events) ==>
        && id in events
        && r == Success(ToDto(events[id]))
        && ids == old(ids) && nextId == old(nextId)
        && events == old(events)[id := events[id]]
        && events[id] == old(events[id]).(name := dto.name, eventType := dto.eventType, date := dto.date,
                                          startingTime := dto.startingTime, endingTime := dto.endingTime,
                                          address := events[id].address, point := events[id].point)
        && events[id].confirm == old(events[id].confirm)
        && events[id].user == old(events[id].user)
        && (old(GetAddress(dto)).Some? ==> events[id].address == old(GetAddress(dto)).value)
        && (old(GetAddress(dto)).None? ==> events[id].address == dto.address)
        && (old(GetPoint(dto)).Some? ==> events[id].point == old(GetPoint(dto)).value)
        && (old(GetPoint(dto)).None? ==> events[id].point == dto.point)
        && addresses == old(addresses) + (if old(GetAddress(dto)).None? then [dto.address] else [])
        && points == old(points) + (if old(GetPoint(dto)).None? then [dto.point] else [])
        && GetAddress(dto) == Some(events[id].address)
        && GetPoint(dto) == Some(events[id].point)
    {
      if id !in events {
        return Failure(NullEvent(id));
      }
      var event := events[id];

      var address := GetAddress(dto);
      if address.None? {
        event := event.(address := dto.address);
      } else {
        event := event.(address := address.value);
      }

      var point := GetPoint(dto);
      if point.None? {
        event := event.(point := dto.point);
      } else {
        event := event.(point := point.value);
      }

      event := event.(name := dto.name, eventType := dto.eventType, date := dto.date,
                      startingTime := dto.startingTime, endingTime := dto.endingTime);

      // eventRepository.save(event)
      PersistRows(event.address, event.point);
      Replace(event);
      r := Success(ToDto(event));
    }

    /**
     * The cascade of eventRepository.save: an address or point the event
     * uses that is not a known row yet becomes one.
     */
    method PersistRows(a: Address, p: Point)
      requires Valid()
      requires a in addresses || FirstWithKey(addresses, AddressKey, AddressKey(a)).None?
      requires p in points || FirstWithKey(points, PointKey, PointKey(p)).None?
      modifies this`addresses, this`points
      ensures Valid()
      ensures addresses == old(addresses) + (if a in old(addresses) then [] else [a])
      ensures points == old(points) + (if p in old(points) then [] else [p])
    {
      if a !in addresses {
        AppendKeepsUnique(addresses, AddressKey, a);
        addresses := addresses + [a];
      }
      if p !in points {
        AppendKeepsUnique(points, PointKey, p);
        points := points + [p];
      }
    }

    /** eventRepository.save of a new event: filed under a fresh id, at the end of the listing. */
    method Insert(e: Event) returns (id: int)
      requires Valid() && e.address in addresses && e.point in points
      modifies this`events, this`ids, this`nextId
      ensures Valid()
      ensures id == old(nextId) && id !in old(events) && nextId == old(nextId) + 1
      ensures events == old(events)[id := e.(id := id)] && ids == old(ids) + [id]
    {
      id := nextId;
      StoreKeepsConsistent(events, ids, nextId, addresses, points, e.(id := id), addresses, points);
      events, ids, nextId := events[id := e.(id := id)], ids + [id], nextId + 1;
    }

    /** eventRepository.save of a stored event: it replaces the row under its id. */
    method Replace(e: Event)
      requires Valid() && e.id in events && e.address in addresses && e.point in points
      modifies this`events
      ensures Valid()
      ensures events == old(events)[e.id := e]
    {
      StoreKeepsConsistent(events, ids, nextId, addresses, points, e, addresses, points);
      events := events[e.id := e];
    }

    /** deleteEventById: the event with that id is gone; nothing else changes, and an absent id changes nothing. */
    method DeleteEventById(id: int)
      requires Valid()
      modifies this`events, this`ids
      ensures Valid()
      ensures events == old(events) - {id}
      ensures ids == Remove(old(ids), id)
    {
      var ids' := Remove(ids, id);
      forall i | 0 <= i < |ids'| ensures ids'[i] in events - {id} {
        assert ids'[i] in ids';
        var j :| 0 <= j < |ids| && ids[j] == ids'[i];
      }
      events, ids := events - {id}, ids';
    }

    /** acceptEvent: the event's confirm flag becomes true; nothing else changes. */
    method AcceptEvent(id: int)
      requires Valid() && id in events
      modifies this`events
      ensures Valid()
      ensures events == old(events)[id := old(events[id]).(confirm := true)]
    {
      var event := events[id];
      event := event.(confirm := true);
      events := events[id := event];
    }

    /** findAll: every stored event mapped, in store order. */
    method FindAll() returns (list: seq<EventDto>)
      requires Valid()
      ensures |list| == |All()|
      ensures forall i :: 0 <= i < |list| ==> list[i] == ToDto(All()[i])
    {
      list := ToDtoList(All());
    }

    /** findByConfirmIsTrue: the confirmed events mapped, in store order. */
    method FindByConfirmIsTrue() returns (list: seq<EventDto>)
      requires Valid()
      ensures |list| == |WithConfirm(All(), true)|
      ensures forall i :: 0 <= i < |list| ==> list[i] == ToDto(WithConfirm(All(), true)[i])
    {
      list := ToDtoList(WithConfirm(All(), true));
    }

    /** findByConfirmIsFalse: the unconfirmed events mapped, in store order. */
    method FindByConfirmIsFalse() returns (list: seq<EventDto>)
      requires Valid()
      ensures |list| == |WithConfirm(All(), false)|
      ensures forall i :: 0 <= i < |list| ==> list[i] == ToDto(WithConfirm(All(), false)[i])
    {
      list := ToDtoList(WithConfirm(All(), false));
    }

    /** findByUser: the events owned by the user with that id mapped, in store order. */
    method FindByUser(userId: int) returns (list: seq<EventDto>)
      requires Valid()
      ensures |list| == |WithOwner(All(), userId)|
      ensures forall i :: 0 <= i < |list| ==> list[i] == ToDto(WithOwner(All(), userId)[i])
    {
      list := ToDtoList(WithOwner(All(), userId));
    }
  }

  /** Two events saved with addresses of the same natural key share one address row. */
  method SharedAddressScenario(s: EventService, u1: User, u2: User, d1: EventDto, d2: EventDto)
    returns (r1: EventDto, r2: EventDto)
    requires s.Valid() && AddressKey(d1.address) == AddressKey(d2.address)
    modifies s
    ensures s.Valid()
    ensures r1.address == r2.address && r1.address in s.addresses
    ensures |s.addresses| <= old(|s.addresses|) + 1
  {
    r1 := s.SaveEvent(u1, d1);
    assert s.GetAddress(d2) == s.GetAddress(d1);
    r2 := s.SaveEvent(u2, d2);
  }

  /** After deleteEventById(id), findById(id) fails with EventNotFound. */
  method DeleteThenFind(s: EventService, id: int) returns (r: Result<EventDto, Error>)
    requires s.Valid()
    modifies s`events, s`ids
    ensures s.Valid()
    ensures r == Failure(EventNotFound(id))
  {
    s.DeleteEventById(id);
    r := s.FindById(id);
  }

  /** Accepting an event twice leaves the same state as accepting it once. */
  method AcceptTwice(s: EventService, id: int)
    requires s.Valid() && id in s.events
    modifies s`events
    ensures s.events == old(s.events)[id := old(s.events[id]).(confirm := true)]
  {
    s.AcceptEvent(id);
    s.AcceptEvent(id);
  }
}
