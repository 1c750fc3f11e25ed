/**
 * Events as callers hand them to the store, rows as the event table holds
 * them, and the field completion every save path applies before writing.
 */
module Events {
  import opened Wrappers
  import opened Uuids

  /** The owning entity of an event: its entity type and its UUID. */
  datatype EntityId = EntityId(entityType: string, id: Uuid)

  /**
   * An event as a caller builds it. The id and the tenant may be missing;
   * a missing (null) uid and an empty one are both the empty string.
   */
  datatype Event = Event(
    id: Option<Uuid>,
    tenantId: Option<Uuid>,
    entityId: EntityId,
    eventType: string,
    uid: string,
    body: string)

  /** A row of the event table: every field is set. */
  datatype EventRow = EventRow(
    id: Uuid,
    tenantId: Uuid,
    entityType: string,
    entityId: Uuid,
    eventType: string,
    eventUid: string,
    body: string)

  /** The tenant of system-level events: the NULL_UUID sentinel. */
  const SystemTenantId: Uuid := NullUuid

  /**
   * The row a save writes for `event`, where `freshId` is the id the
   * time-based generator issues when the event has none: a missing tenant
   * becomes the system tenant, a missing id the fresh one, and an empty uid
   * the string form of the id.
   */
  function Completed(event: Event, freshId: Uuid): (row: EventRow)
    ensures row.eventUid != ""
    ensures row.entityType == event.entityId.entityType && row.entityId == event.entityId.id
    ensures row.eventType == event.eventType && row.body == event.body
  {
    var id := if event.id.Some? then event.id.value else freshId;
    EventRow(
      id,
      if event.tenantId.Some? then event.tenantId.value else SystemTenantId,
      event.entityId.entityType,
      event.entityId.id,
      event.eventType,
      if event.uid == "" then ToString(id) else event.uid,
      event.body)
  }

  /** A stored row read back as an event, every field copied. */
  function AsEvent(row: EventRow): Event
  {
    Event(Some(row.id), Some(row.tenantId), EntityId(row.entityType, row.entityId),
          row.eventType, row.eventUid, row.body)
  }

  /** Field completion keeps every field the caller set and fills only the missing ones. */
  lemma CompletionKeepsPresentFields(event: Event, freshId: Uuid)
    ensures event.id.Some? ==> Completed(event, freshId).id == event.id.value
    ensures event.id.None? ==> Completed(event, freshId).id == freshId
    ensures event.tenantId.Some? ==> Completed(event, freshId).tenantId == event.tenantId.value
    ensures event.tenantId.None? ==> Completed(event, freshId).tenantId == SystemTenantId
    ensures event.uid != "" ==> Completed(event, freshId).eventUid == event.uid
    ensures event.uid == "" ==> Completed(event, freshId).eventUid == ToString(Completed(event, freshId).id)
  {
  }

  /** Completing an event that is already complete changes nothing, whatever id is on offer. */
  lemma CompletionIsIdempotent(row: EventRow, freshId: Uuid)
    requires row.eventUid != ""
    ensures Completed(AsEvent(row), freshId) == row
  {
  }

  /**
   * `save(Event)` completes the id and uid on the event first and the
   * tenant later, on the entity; doing it in two steps gives the same row
   * as completing all three at once.
   */
  lemma TwoStepCompletion(event: Event, freshId: Uuid, laterId: Uuid)
    ensures var id := if event.id.Some? then event.id.value else freshId;
            var uid := if event.uid == "" then ToString(id) else event.uid;
            Completed(event.(id := Some(id), uid := uid), laterId) == Completed(event, freshId)
  {
  }

  /**
   * Uids derived from ids identify the id: two events saved without a uid
   * get the same uid only when they got the same id.
   */
  lemma DerivedUidsIdentifyIds(e1: Event, f1: Uuid, e2: Event, f2: Uuid)
    requires e1.uid == "" && e2.uid == ""
    requires Completed(e1, f1).eventUid == Completed(e2, f2).eventUid
    ensures Completed(e1, f1).id == Completed(e2, f2).id
  {
    ToStringInjective(Completed(e1, f1).id, Completed(e2, f2).id);
  }
}
