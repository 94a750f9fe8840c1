# Event service model

A Dafny model of `EventServiceImpl`, the service layer of the event-management
backend: the one class in the repository that makes decisions. It keeps events
in an event table and manages two shared sub-entities, addresses and geographic
points, that are deduplicated by natural key. It also maps between the persisted
`Event` entity and the `EventDto` transfer object.

Modules:

- `Wrappers` (wrappers.dfy): `Option` for the repositories' nullable lookups and `Result` for the service's failures.
- `Entities` (entities.dfy): `User`, `Address` (natural key city, street, number), `Point` (natural key longitude, latitude), `Event` and `EventDto`, and the key projections.
- `Mappers` (mappers.dfy): the two mappers as total field projections. It also holds the list-mapping loop that every finder runs.
- `EventStore` (store.dfy): the repositories as pure queries over stored values. This covers lookup of the first row with a natural key (`checkIfExist`, `findByName`), the listing in store order (`findAll`), and the filters `findByConfirmIsTrue`, `findByConfirmIsFalse` and `findByUserId`. It also holds the lemmas about these queries.
- `Service` (service.dfy): the class `EventService` and three client methods for end-to-end scenarios: two saves sharing an address, delete then find, accept twice. The class holds the event table (`events: map<int, Event>`), the listing order (`ids`), the next id to give, and the known address and point rows.

The object invariant `Consistent` says:

- every event is filed under its own id, and that id is below the next id to be given;
- the listing holds every stored id exactly once;
- no two known addresses, and no two known points, share a natural key;
- every stored event's address and point are known rows.

Saving never creates a second row with a key that is already known. That is the point of deduplication, and the invariant states it.

Behaviour the source leaves to collaborators, and how the model settles it:

- `eventRepository.save` gives a new event a fresh id, taken from a counter. The DTO's id is ignored on save.
- An address or point that the lookup did not find is persisted together with the event. This is the entity's cascade, which is not part of this model's source, so `PersistRows` models it.
- `updateEvent` on an id that is not stored dereferences the null lookup result. The model returns `Failure(NullEvent(id))` and changes nothing. This follows the code. The failure is deliberately distinct from `findById`'s `EventNotFound`; wrapping the null lookup as `EventNotFound` would be the cleaner failure.
- `acceptEvent` relies on flush-on-commit. The model writes the table directly.

## Model

| member | source | states |
|---|---|---|
| `Mappers.ToEntity` | Event/src/main/java/events/project/service/EventServiceImpl.java:52 | the entity built from a DTO has no owner, and mapping it back gives the DTO unchanged |
| `Mappers.ToDto` | Event/src/main/java/events/project/service/EventServiceImpl.java:69 | the DTO of an event carries its id, name, confirm flag, address and point (the owner is not part of the DTO) |
| `Mappers.ToDtoList` | Event/src/main/java/events/project/service/EventServiceImpl.java:120-124 | the finders' loop returns a list of the same length as the query result, whose i-th element is the i-th row mapped |
| `EventStore.FirstWithKey` | Event/src/main/java/events/project/service/EventServiceImpl.java:106-110 | a lookup by natural key returns a known row with that key, and returns none exactly when no known row has it |
| `EventStore.UniqueLookup` | Event/src/main/java/events/project/service/EventServiceImpl.java:55-59 | when keys are unique, looking up a row's own key finds that very row (the reuse in dedup) |
| `EventStore.AppendKeepsUnique` | Event/src/main/java/events/project/service/EventServiceImpl.java:57-58 | persisting a supplied row only when its key was not found keeps the known rows free of duplicate keys |
| `EventStore.Rows` | Event/src/main/java/events/project/service/EventServiceImpl.java:121 | the listing has one row per listed id, in that order, each the stored event |
| `EventStore.RowsHoldTable` | Event/src/main/java/events/project/service/EventServiceImpl.java:121 | when the ids are exactly the table's keys, the listing holds exactly the stored events |
| `EventStore.WithConfirm` | Event/src/main/java/events/project/service/EventServiceImpl.java:130 | the confirm filter keeps exactly the rows whose flag is the one asked for |
| `EventStore.WithOwner` | Event/src/main/java/events/project/service/EventServiceImpl.java:160 | the owner filter keeps exactly the rows owned by the user with that id |
| `EventStore.ConfirmPartition` | Event/src/main/java/events/project/service/EventServiceImpl.java:127-143 | the confirmed and unconfirmed listings together are the whole listing as a multiset, so every stored event is in exactly one of them |
| `EventStore.Remove` | Event/src/main/java/events/project/service/EventServiceImpl.java:114 | deleting takes exactly that id out of the listing, keeps the rest distinct, and changes nothing for an absent id |
| `EventStore.RemoveAt` | Event/src/main/java/events/project/service/EventServiceImpl.java:114 | in a listing without repeats, deleting the id at a position closes the gap: the other ids keep their relative order |
| `EventStore.NamedRowExists` | Event/src/main/java/events/project/service/EventServiceImpl.java:148-154 | the lookup by name succeeds exactly when some stored event has that name |
| `Service.StoreKeepsConsistent` | Event/src/main/java/events/project/service/EventServiceImpl.java:68 | storing an event under its own or a fresh id, with its rows known and keys unique, keeps the store invariant |
| `Service.EventService.constructor` | Event/src/main/java/events/project/service/EventServiceImpl.java:36-41 | a new service starts with an empty, consistent store whose next id is 0 |
| `Service.EventService.All` | Event/src/main/java/events/project/service/EventServiceImpl.java:121 | the store's listing contains exactly the stored events |
| `Service.EventService.FindById` | Event/src/main/java/events/project/service/EventServiceImpl.java:44-47 | fails with EventNotFound(id) exactly when the id is not stored; otherwise it returns the stored event mapped, carrying that id |
| `Service.EventService.GetAddress` | Event/src/main/java/events/project/service/EventServiceImpl.java:106-110 | returns the known address with the DTO's (city, street, number), the only one, or none when no known address has that key |
| `Service.EventService.GetPoint` | Event/src/main/java/events/project/service/EventServiceImpl.java:73-76 | returns the known point with the DTO's (longitude, latitude), the only one, or none when no known point has that key |
| `Service.EventService.IsEventExist` | Event/src/main/java/events/project/service/EventServiceImpl.java:146-155 | true exactly when some stored event has the DTO's name; reads only |
| `Service.EventService.SaveEvent` | Event/src/main/java/events/project/service/EventServiceImpl.java:51-71 | stores under a fresh id (the counter advances by one) the DTO's event owned by `user`; it uses the known address (point) with the DTO's key when there is one, else the supplied one, which becomes known; nothing else changes; the result is the stored event mapped; afterwards the key finds the event's address (point) |
| `Service.EventService.UpdateEvent` | Event/src/main/java/events/project/service/EventServiceImpl.java:79-104 | a missing id fails with nothing changed; otherwise it sets name, type, date and both times from the DTO and re-resolves address and point as save does; it keeps id, confirm and owner; no other event changes |
| `Service.EventService.PersistRows` | Event/src/main/java/events/project/service/EventServiceImpl.java:68 | the save's cascade adds the event's address (point) to the known rows exactly when it was not known, keeping the invariant |
| `Service.EventService.Insert` | Event/src/main/java/events/project/service/EventServiceImpl.java:68 | a new event is filed under the next, unused id, the counter advances by one, and the event is appended to the listing; nothing else changes |
| `Service.EventService.Replace` | Event/src/main/java/events/project/service/EventServiceImpl.java:101 | a stored event's row is replaced under its id; nothing else changes |
| `Service.EventService.DeleteEventById` | Event/src/main/java/events/project/service/EventServiceImpl.java:113-115 | only that id leaves the table and the listing |
| `Service.EventService.AcceptEvent` | Event/src/main/java/events/project/service/EventServiceImpl.java:175-178 | the event's confirm flag becomes true; its other fields and every other event stay as they were |
| `Service.EventService.FindAll` | Event/src/main/java/events/project/service/EventServiceImpl.java:118-125 | every stored event mapped, same length and order as the listing |
| `Service.EventService.FindByConfirmIsTrue` | Event/src/main/java/events/project/service/EventServiceImpl.java:127-134 | the confirmed events mapped, same length and order as the query |
| `Service.EventService.FindByConfirmIsFalse` | Event/src/main/java/events/project/service/EventServiceImpl.java:136-143 | the unconfirmed events mapped, same length and order as the query |
| `Service.EventService.FindByUser` | Event/src/main/java/events/project/service/EventServiceImpl.java:157-164 | the events owned by that user id mapped, same length and order as the query |
| `Service.SharedAddressScenario` | Event/src/main/java/events/project/service/EventServiceImpl.java:55-59 | two events saved with addresses of the same natural key share one address row, and at most one row is added |
| `Service.DeleteThenFind` | Event/src/main/java/events/project/service/EventServiceImpl.java:113-115 | after deleting an id, the store is still consistent and finding that id fails with EventNotFound |
| `Service.AcceptTwice` | Event/src/main/java/events/project/service/EventServiceImpl.java:175-178 | accepting twice leaves the same table as accepting once |

## Left out

- `findAllWithCriteria` (EventServiceImpl.java:167-173): its query is an opaque JPA `Specification` that the model cannot evaluate. Its only behaviour is the same mapping loop as the other finders, which is `Mappers.ToDtoList`.
- Spring wiring (`@Service`, `@Autowired`, `@Transactional`) and transactions: each operation runs to completion alone. A failed `updateEvent` changes nothing, as a rolled-back transaction would leave it.
- Concurrency: the race between the lookup and the insert of an address or point under concurrent requests is not modelled.
- Repository internals are not part of this model: the SQL behind `checkIfExist` and `findByName`, id generation, and what the store does when several rows match a single-row lookup. The model takes the first match in store order.
- `Service.EventService.FindById`: checks the id before mapping. It assumes that `toDto.map` of the null a missing row yields is null, so that `Optional.ofNullable` turns it into `EventNotFound`. A mapper that dereferences its argument would fail with a null-pointer error instead; that path is not modelled.
- `Service.EventService.AcceptEvent`: requires the id to be stored. On a missing id the source dereferences the null lookup result (EventServiceImpl.java:176-177); unlike `UpdateEvent`, whose failure is returned as `NullEvent`, that crash is not modelled, because `acceptEvent` returns nothing through which a failure could be reported.
- `Service.EventService.DeleteEventById`: deleting an absent id is a no-op. A store that raises an error for it is not modelled.
- Row ids of newly persisted addresses and points: the new row keeps the id value the DTO supplied.
- `Service.EventService.SaveEvent`: uses a fresh id from a counter and ignores the DTO's id. The source's `save` would merge into an existing row if given a stored id.
- The mappers' handling of null fields: the mappers are total projections, and null DTOs, null events or null sub-objects do not exist in the model (see `FindById` above).
- Floating point: longitude and latitude are `real` values compared by exact equality. NaN and rounding are not modelled.
- The event type, date and times are opaque values that are only copied. `User` is an opaque owner with an id.
- The controller, the exception classes and the `User` entity are not part of this model.
