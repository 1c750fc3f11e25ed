# Event log store (JpaBaseEventDao) in Dafny

This project models the event DAO of the server: the component that stores
immutable events, each attached to a tenant and an owning entity, and
answers three kinds of query over them. The model strips the Spring and JPA
layers and keeps the logic they carry:

- **Field completion on save.** A missing id gets a new time-based id. An
  empty uid becomes the string form of the id. A missing tenant becomes the
  system tenant `NULL_UUID`.
- **Plain save.** The completed row is written unconditionally, as an
  upsert by id, and the result is always present.
- **Idempotent save (`saveIfNotExists`).** Nothing is written, and the
  result is absent, when a stored event has the same tenant, entity type
  and entity id. This key is coarser than the five-field natural key that
  `findEvent` uses. The model keeps that difference as the code has it.
- **`findEvent`.** Exact lookup on tenant, entity type, entity id, event
  type and uid.
- **`findEvents`.** An AND of optional filters, built as a list of column
  predicates, together with the time window. The result is ordered by id,
  ascending or descending, and only the first page of `limit` rows is kept.
- **`findLatestEvents`.** An exact four-field match, at most `limit` rows.

Modules:

- `Wrappers` holds `Option` and `Result`.
- `Uuids` holds UUIDs as time-ordered naturals, the `NULL_UUID` sentinel,
  and the UUID string form with its injectivity.
- `Events` holds the caller's `Event`, the stored `EventRow`, and field
  completion.
- `EventTable` holds the repository's operations on the table: upsert,
  single-result lookup, filtering, ordering by id and the first page.
- `EventQueries` holds the lookups and queries and the lemmas about them.
- `EventDao` holds the class `JpaBaseEventDao`. It has the table and the
  id generator as fields, and the save paths and `findEvents` as methods.

The table is a `seq<EventRow>` field that the save methods reassign. The
time-based generator is a counter field `clock`. The queries are functions
of the table.

In three places the model follows the code where one might expect otherwise:

- The code's `findLatestEvents` shows no ordering, so the model promises none.
- The code's save upserts by id instead of rejecting a duplicate primary key.
- The code leaves the tenant of the caller's `Event` untouched and fills it
  only on the row it writes.

## Model

| member | source | states |
|---|---|---|
| `Uuids.ToString` | dao/src/main/java/com/sanshengshui/server/dao/sql/event/JpaBaseEventDao.java:66 | the string form of an id is never empty, so a derived uid is never empty |
| `Uuids.ToStringInjective` | dao/src/main/java/com/sanshengshui/server/dao/sql/event/JpaBaseEventDao.java:128-130 | distinct ids have distinct string forms, so a derived uid determines the id |
| `Events.Completed` | dao/src/main/java/com/sanshengshui/server/dao/sql/event/JpaBaseEventDao.java:121-130 | the completed row always has a non-empty uid, and it carries the caller's entity, event type and body unchanged |
| `Events.CompletionKeepsPresentFields` | dao/src/main/java/com/sanshengshui/server/dao/sql/event/JpaBaseEventDao.java:121-130 | a present id, tenant or uid is kept; a missing id becomes the fresh id, a missing tenant becomes `NULL_UUID`, and an empty uid becomes the string form of the id |
| `Events.CompletionIsIdempotent` | dao/src/main/java/com/sanshengshui/server/dao/sql/event/JpaBaseEventDao.java:121-130 | completing a row that is already complete gives the same row back, whatever fresh id is offered |
| `Events.TwoStepCompletion` | dao/src/main/java/com/sanshengshui/server/dao/sql/event/JpaBaseEventDao.java:60-68 | completing id and uid on the event, and later the tenant on the entity, gives the same row as completing all three at once |
| `Events.DerivedUidsIdentifyIds` | dao/src/main/java/com/sanshengshui/server/dao/sql/event/JpaBaseEventDao.java:65-67 | two events saved without a uid get the same uid only when they get the same id |
| `EventTable.Upsert` | dao/src/main/java/com/sanshengshui/server/dao/sql/event/JpaBaseEventDao.java:135 | the written row is in the table; every other stored row with a different id stays; no other row appears; ids stay unique, and the only row with that id is the written one |
| `EventTable.FindFirst` | dao/src/main/java/com/sanshengshui/server/dao/sql/event/JpaBaseEventDao.java:132 | a single-result lookup returns a stored row that satisfies the condition, and it is absent exactly when no stored row does |
| `EventTable.Where` | dao/src/main/java/com/sanshengshui/server/dao/sql/event/JpaBaseEventDao.java:105 | the filtered rows are exactly the stored rows that satisfy the filter, with no row repeated more often than it is stored |
| `EventTable.WhereAgrees` | dao/src/main/java/com/sanshengshui/server/dao/sql/event/JpaBaseEventDao.java:155 | two filters that agree on every stored row select the same rows |
| `EventTable.Insert` | dao/src/main/java/com/sanshengshui/server/dao/sql/event/JpaBaseEventDao.java:103 | inserting into a list ordered by id keeps it ordered, and the result has the same rows plus the new one |
| `EventTable.SortById` | dao/src/main/java/com/sanshengshui/server/dao/sql/event/JpaBaseEventDao.java:103-104 | the rows are ordered by id in the requested direction and are a permutation of the input |
| `EventQueries.FindEvent` | dao/src/main/java/com/sanshengshui/server/dao/sql/event/JpaBaseEventDao.java:89-91 | a present result is a stored event that matches all five fields; the result is absent exactly when no stored event matches, and no error is raised |
| `EventQueries.FindByOwner` | dao/src/main/java/com/sanshengshui/server/dao/sql/event/JpaBaseEventDao.java:131-132 | the coarse lookup finds a stored event of that tenant, entity type and entity id, and is absent exactly when there is none |
| `EventQueries.FindEventAfterUpsert` | dao/src/main/java/com/sanshengshui/server/dao/sql/event/JpaBaseEventDao.java:135 | after a row is written, `findEvent` with its natural key returns an event, and returns that row when no other row had the key |
| `EventQueries.OwnerExistsAfterUpsert` | dao/src/main/java/com/sanshengshui/server/dao/sql/event/JpaBaseEventDao.java:131-133 | after a row is written, its owner exists, so the next idempotent save for that owner is refused |
| `EventQueries.OwnerKeyIsCoarserThanNaturalKey` | dao/src/main/java/com/sanshengshui/server/dao/sql/event/JpaBaseEventDao.java:131-132 | an owner can exist while no stored event has the natural key being saved, because the check ignores event type and uid |
| `EventQueries.EntityFieldsSpec` | dao/src/main/java/com/sanshengshui/server/dao/sql/event/JpaBaseEventDao.java:138-157 | the AND of the collected predicates holds of a row exactly when every supplied filter holds; an entity adds both an entity-type and an entity-id predicate; with no filters the list is empty, so every row matches |
| `EventQueries.FindEventsMatchFilters` | dao/src/main/java/com/sanshengshui/server/dao/sql/event/JpaBaseEventDao.java:100-105 | every returned event is stored, is in the time window, and satisfies each supplied filter; an entity constrains both entity type and entity id |
| `EventQueries.FindEventsPageShape` | dao/src/main/java/com/sanshengshui/server/dao/sql/event/JpaBaseEventDao.java:103-105 | the query fails only on a page size below one; otherwise it returns at most `limit` events ordered by id in the requested direction, and an empty table gives an empty page |
| `EventQueries.FindEventsIsFirstPage` | dao/src/main/java/com/sanshengshui/server/dao/sql/event/JpaBaseEventDao.java:104 | a selected event left off the page means the page is full and every event on it comes before the one left off |
| `EventQueries.FindEventsWithoutFilters` | dao/src/main/java/com/sanshengshui/server/dao/sql/event/JpaBaseEventDao.java:140-155 | with no tenant, entity or event type, the query selects every row in the time window |
| `EventQueries.FindLatestEvents` | dao/src/main/java/com/sanshengshui/server/dao/sql/event/JpaBaseEventDao.java:109-116 | fails only on a limit below one; otherwise at most `limit` stored events, all matching tenant, entity type, entity id and event type exactly, and all such events when fewer than `limit` exist |
| `EventDao.JpaBaseEventDao.TimeBasedId` | dao/src/main/java/com/sanshengshui/server/dao/sql/event/JpaBaseEventDao.java:126 | each issued id is later than every id issued before it |
| `EventDao.JpaBaseEventDao.SaveEntity` | dao/src/main/java/com/sanshengshui/server/dao/sql/event/JpaBaseEventDao.java:119-136 | with `ifNotExists` and a stored event of the completed row's tenant, entity type and entity id, the result is absent and the table is unchanged; otherwise the completed row is upserted and returned. A missing id advances the generator even when the save is refused, and a new id is not in the table when all stored ids predate the generator |
| `EventDao.JpaBaseEventDao.Save` | dao/src/main/java/com/sanshengshui/server/dao/sql/event/JpaBaseEventDao.java:59-69 | always writes and returns the completed event, which is never absent; table keys stay unique and every stored uid stays non-empty |
| `EventDao.JpaBaseEventDao.SaveIfNotExists` | dao/src/main/java/com/sanshengshui/server/dao/sql/event/JpaBaseEventDao.java:83-86 | absent and the table unchanged when the owner exists, whatever the event type or uid; otherwise the completed event is stored and returned |
| `EventDao.JpaBaseEventDao.FindEvents` | dao/src/main/java/com/sanshengshui/server/dao/sql/event/JpaBaseEventDao.java:99-106 | the query built from the predicate list and the time window returns exactly the page of the reference query `EventQueries.FindEvents` |
| `EventDao.JpaBaseEventDao.FindEventsOfAnyType` | dao/src/main/java/com/sanshengshui/server/dao/sql/event/JpaBaseEventDao.java:94-97 | the three-argument overload is the four-argument query with no event type, and its events match the tenant and entity filters |
| `EventDao.SaveIfNotExistsTwice` | dao/src/main/java/com/sanshengshui/server/dao/sql/event/JpaBaseEventDao.java:131-135 | two idempotent saves for the same owner: the first is stored and the second is refused, even when event type and uid differ |
| `EventDao.SaveThenFindEvent` | dao/src/main/java/com/sanshengshui/server/dao/sql/event/JpaBaseEventDao.java:65-68 | a saved event is found again by `findEvent`, under the uid the caller gave or, when none was given, under the string form of its id; when no stored event had its natural key before, the event found is exactly the saved one |

## Left out

- `saveAsync` (lines 71-81): its field completion is the same as `Save`'s, and `Save` models it; the executor submission and the `ListenableFuture` are concurrency and are not modelled.
- The race in `saveIfNotExists`: the existence check and the insert are two repository calls, so two concurrent saves for one owner can both pass the check. The model is sequential and records the race only in a comment.
- UUID generation (`UUIDs.timeBased()`) is foreign library code. It is a counter field, `clock`, that issues increasing ids. The `toString()` that derives a uid from an id is modelled as a hexadecimal numeral; the model uses only that it is non-empty and injective. `UUIDConverter.fromTimeUUID` is treated as the identity: tenant and entity UUIDs are compared directly, which is sound because that conversion is injective.
- EventDao.JpaBaseEventDao.SaveEntity: a new id is promised to differ from every stored id only when all stored ids predate the generator (`IdsBeforeClock`), because ids supplied by callers are arbitrary in the model while the real ones are globally unique UUIDs.
- The time-bound specification of `findEvents` comes from `JpaAbstractSearchTimeDao.getTimeSearchPageSpec`, and that file is not part of this model. It is represented as an optional inclusive window on the time-ordered id. The exact inclusive or exclusive bounds, and any id-offset cursor, are not modelled.
- EventQueries.FindLatestEvents: the contract promises no order and does not say which `limit` events are returned when more match, because the repository query that orders them is not part of this model.
- A page size below one makes Spring's `PageRequest` raise an exception; this is modelled as `Failure(PageSizeLessThanOne)`. The page offset is always zero, so only the first page exists.
- The single-result repository lookups (`findByTenantIdAndEntityTypeAndEntityIdAndEventTypeAndEventUid` and `findByTenantIdAndEntityTypeAndEntityId`) would raise an exception if several rows match. The model returns the first matching row instead.
- The caller's `Event` object is updated in place by the setters in `save(Event)`. The model returns the completed row instead and does not model aliasing of the caller's object.
- A null uid and an empty uid are one value, the empty string, since `StringUtils.isEmpty` treats them alike. A null entity passed to `findEvent` or `findLatestEvents` would make the code dereference null and raise an exception; in the model the entity is a required argument.
- Framework plumbing is not modelled: Spring dependency injection, `getEntityClass` and `getCrudRepository`, the JPA Criteria, `Specification` and `Sort` machinery, and logging. The `DaoUtil` conversions between entity and data object are taken to copy every field: queries and saves return the stored row itself, and `AsEvent` reads a row back as an event only to state that completing a stored event changes nothing.
- The event body is an opaque string, because the store never interprets it.
