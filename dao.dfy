/**
 * The JPA event DAO: a table of event rows, a time-based id generator, the
 * three save paths and the findEvents query that composes its filters
 * from a list of column predicates.
 */
module EventDao {
  import opened Wrappers
  import opened Uuids
  import opened Events
  import opened EventTable
  import opened EventQueries

  class JpaBaseEventDao {
    /** The event table behind the repository. */
    var table: seq<EventRow>
    /** The time-based UUID generator: the id it issues next. Later ids are larger. */
    var clock: Uuid

    /** Ids are the table's primary key, and every stored event has a uid. */
    ghost predicate Valid()
      reads this
    {
      UniqueIds(table) && forall r :: r in table ==> r.eventUid != ""
    }

    /** Every stored id was issued before the generator's current time. */
    predicate IdsBeforeClock()
      reads this
    {
      forall r :: r in table ==> r.id < clock
    }

    constructor (startClock: Uuid)
      ensures Valid() && IdsBeforeClock()
      ensures table == [] && clock == startClock
    {
      table := [];
      clock := startClock;
    }

    /** UUIDs.timeBased(): a new id, later than every id issued before. */
    method TimeBasedId() returns (id: Uuid)
      modifies this`clock
      ensures id == old(clock) && clock == old(clock) + 1
    {
      id := clock;
      clock := clock + 1;
    }

    /**
     * save(EventEntity, ifNotExists): completes tenant, id and uid, then
     * writes the row, unless `ifNotExists` holds and an event of the same
     * tenant, entity type and entity id is already stored; event type and
     * uid play no part in that check. A fresh id is issued before the
     * check, so a refused save still advances the generator.
     *
     * The existence check and the write are two repository calls, so two
     * concurrent saves of the same owner can both pass the check; this
     * model is sequential and does not show that race.
     */
    method SaveEntity(event: Event, ifNotExists: bool) returns (saved: Option<EventRow>)
      requires Valid()
      modifies this
      ensures Valid()
      ensures clock == if event.id.None? then old(clock) + 1 else old(clock)
      ensures var row := Completed(event, old(clock));
              if ifNotExists && FindByOwner(old(table), row.tenantId, row.entityType, row.entityId).Some?
              then saved == None && table == old(table)
              else saved == Some(row) && table == Upsert(old(table), row)
      ensures saved.Some? && event.id.None? && old(IdsBeforeClock()) ==>
                forall r :: r in old(table) ==> r.id != saved.value.id
      ensures old(IdsBeforeClock()) && (event.id.None? || event.id.value < old(clock)) ==> IdsBeforeClock()
    {
      var tenantId := event.tenantId;
      if tenantId.None? {
        tenantId := Some(SystemTenantId);
      }
      var id := event.id;
      if id.None? {
        var newId := TimeBasedId();
        id := Some(newId);
      }
      var uid := event.uid;
      if uid == "" {
        uid := ToString(id.value);
      }
      var row := EventRow(id.value, tenantId.value, event.entityId.entityType, event.entityId.id,
                          event.eventType, uid, event.body);
      if ifNotExists && FindByOwner(table, row.tenantId, row.entityType, row.entityId).Some? {
        return None;
      }
      table := Upsert(table, row);
      saved := Some(row);
    }

    /**
     * save(Event): completes the id and uid on the event, then saves it
     * unconditionally; the result is always present.
     */
    method Save(event: Event) returns (saved: EventRow)
      requires Valid()
      modifies this
      ensures Valid()
      ensures clock == if event.id.None? then old(clock) + 1 else old(clock)
      ensures saved == Completed(event, old(clock))
      ensures table == Upsert(old(table), saved)
      ensures event.id.None? && old(IdsBeforeClock()) ==> forall r :: r in old(table) ==> r.id != saved.id
      ensures old(IdsBeforeClock()) && (event.id.None? || event.id.value < old(clock)) ==> IdsBeforeClock()
    {
      var e := event;
      if e.id.None? {
        var newId := TimeBasedId();
        e := e.(id := Some(newId));
      }
      if e.uid == "" {
        e := e.(uid := ToString(e.id.value));
      }
      TwoStepCompletion(event, old(clock), clock);
      var result := SaveEntity(e, false);
      saved := result.value;
    }

    /**
     * saveIfNotExists: saves the event only when no stored event has its
     * (defaulted) tenant, entity type and entity id; otherwise returns
     * absent and leaves the table as it was.
     */
    method SaveIfNotExists(event: Event) returns (saved: Option<EventRow>)
      requires Valid()
      modifies this
      ensures Valid()
      ensures clock == if event.id.None? then old(clock) + 1 else old(clock)
      ensures var row := Completed(event, old(clock));
              if FindByOwner(old(table), row.tenantId, row.entityType, row.entityId).Some?
              then saved == None && table == old(table)
              else saved == Some(row) && table == Upsert(old(table), row)
    {
      saved := SaveEntity(event, true);
    }

    /**
     * findEvents with an event type: the filter is built as the AND of the
     * predicate list from EntityFieldsSpec and the time window, and gives
     * the page the reference query FindEvents describes.
     */
    method FindEvents(tenantId: Option<Uuid>, entityId: Option<EntityId>, eventType: Option<string>,
                      link: TimePageLink)
      returns (page: Result<seq<EventRow>, QueryError>)
      ensures page == EventQueries.FindEvents(table, tenantId, entityId, eventType, link)
    {
      var fieldsSpec := EntityFieldsSpec(tenantId, entityId, eventType);
      var spec := (r: EventRow) => InTimeWindow(link, r.id) && HoldsAll(fieldsSpec, r);
      if link.limit < 1 {
        return Failure(PageSizeLessThanOne);
      }
      WhereAgrees(table, spec, Selector(link, tenantId, entityId, eventType));
      page := Success(Take(SortById(link.ascOrder, Where(table, spec)), link.limit));
    }

    /** findEvents without an event type: the same query with no event-type constraint. */
    method FindEventsOfAnyType(tenantId: Option<Uuid>, entityId: Option<EntityId>, link: TimePageLink)
      returns (page: Result<seq<EventRow>, QueryError>)
      ensures page == EventQueries.FindEvents(table, tenantId, entityId, None, link)
      ensures page.Success? ==> forall r :: r in page.value ==> MatchesFields(tenantId, entityId, None, r)
    {
      page := FindEvents(tenantId, entityId, None, link);
      if page.Success? {
        FindEventsMatchFilters(table, tenantId, entityId, None, link);
      }
    }
  }

  /**
   * Two idempotent saves for the same owner: the first is stored, the
   * second is refused even when its event type and uid differ.
   */
  method SaveIfNotExistsTwice(dao: JpaBaseEventDao, first: Event, second: Event)
    returns (r1: Option<EventRow>, r2: Option<EventRow>)
    requires dao.Valid()
    requires first.tenantId == second.tenantId && first.entityId == second.entityId
    requires FindByOwner(dao.table, Completed(first, dao.clock).tenantId,
                         first.entityId.entityType, first.entityId.id).None?
    modifies dao
    ensures dao.Valid()
    ensures r1 == Some(Completed(first, old(dao.clock))) && r2 == None
  {
    r1 := dao.SaveIfNotExists(first);
    var row := r1.value;
    OwnerExistsAfterUpsert(old(dao.table), row, row.tenantId, row.entityType, row.entityId);
    r2 := dao.SaveIfNotExists(second);
  }

  /** A saved event is found again by findEvent under its natural key. */
  method SaveThenFindEvent(dao: JpaBaseEventDao, event: Event) returns (saved: EventRow, found: Option<EventRow>)
    requires dao.Valid()
    modifies dao
    ensures found.Some? && HasNaturalKey(found.value, saved.tenantId, EntityId(saved.entityType, saved.entityId),
                                         saved.eventType, saved.eventUid)
    ensures event.uid != "" ==> found.value.eventUid == event.uid
    ensures event.uid == "" ==> found.value.eventUid == ToString(saved.id)
    ensures (forall r :: r in old(dao.table) ==> !HasNaturalKey(r, saved.tenantId, EntityId(saved.entityType, saved.entityId),
                                                                saved.eventType, saved.eventUid))
            ==> found == Some(saved)
  {
    saved := dao.Save(event);
    FindEventAfterUpsert(old(dao.table), saved);
    found := FindEvent(dao.table, saved.tenantId, EntityId(saved.entityType, saved.entityId),
                       saved.eventType, saved.eventUid);
  }
}
