/**
 * The read side of the event DAO: the exact natural-key lookup, the
 * coarse owner lookup used by the idempotent save, the filtered and paged
 * `findEvents` query with the predicate list it is built from, and the
 * latest-N query.
 */
module EventQueries {
  import opened Wrappers
  import opened Uuids
  import opened Events
  import opened EventTable

  /** The error a page request with a size below one raises. */
  datatype QueryError = PageSizeLessThanOne

  /**
   * A time page link: a page size, the time window as bounds on the
   * time-ordered id, and the order of the result.
   */
  datatype TimePageLink = TimePageLink(limit: int, startId: Option<Uuid>, endId: Option<Uuid>, ascOrder: bool)

  /** The time window of a page link, inclusive at both ends. */
  predicate InTimeWindow(link: TimePageLink, id: Uuid)
  {
    (link.startId.None? || link.startId.value <= id) &&
    (link.endId.None? || id <= link.endId.value)
  }

  // ---------------------------------------------------------------- lookups

  /** r has the five-field natural key. */
  predicate HasNaturalKey(r: EventRow, tenantId: Uuid, entityId: EntityId, eventType: string, eventUid: string)
  {
    r.tenantId == tenantId && r.entityType == entityId.entityType && r.entityId == entityId.id &&
    r.eventType == eventType && r.eventUid == eventUid
  }

  /** r belongs to the owner (tenant, entity type, entity id): the coarse key of the idempotent save. */
  predicate HasOwner(r: EventRow, tenantId: Uuid, entityType: string, entityId: Uuid)
  {
    r.tenantId == tenantId && r.entityType == entityType && r.entityId == entityId
  }

  /** findEvent: a stored event with the natural key, or absent when there is none. */
  function FindEvent(table: seq<EventRow>, tenantId: Uuid, entityId: EntityId, eventType: string, eventUid: string)
    : (found: Option<EventRow>)
    ensures found.Some? ==> found.value in table && HasNaturalKey(found.value, tenantId, entityId, eventType, eventUid)
    ensures found.None? <==> forall r :: r in table ==> !HasNaturalKey(r, tenantId, entityId, eventType, eventUid)
  {
    FindFirst(table, r => HasNaturalKey(r, tenantId, entityId, eventType, eventUid))
  }

  /** The repository's lookup by tenant, entity type and entity id: a stored event of that owner, or absent. */
  function FindByOwner(table: seq<EventRow>, tenantId: Uuid, entityType: string, entityId: Uuid)
    : (found: Option<EventRow>)
    ensures found.Some? ==> found.value in table && HasOwner(found.value, tenantId, entityType, entityId)
    ensures found.None? <==> forall r :: r in table ==> !HasOwner(r, tenantId, entityType, entityId)
  {
    FindFirst(table, r => HasOwner(r, tenantId, entityType, entityId))
  }

  /**
   * A row just written is found again by its natural key, and is the row
   * found when no other row had that key.
   */
  lemma FindEventAfterUpsert(table: seq<EventRow>, row: EventRow)
    ensures var found := FindEvent(Upsert(table, row), row.tenantId, EntityId(row.entityType, row.entityId),
                                   row.eventType, row.eventUid);
            found.Some? &&
            ((forall r :: r in table ==> !HasNaturalKey(r, row.tenantId, EntityId(row.entityType, row.entityId),
                                                        row.eventType, row.eventUid))
             ==> found == Some(row))
  {
  }

  /** A row just written makes its owner exist, so an idempotent save for the same owner is refused. */
  lemma OwnerExistsAfterUpsert(table: seq<EventRow>, row: EventRow, tenantId: Uuid, entityType: string, entityId: Uuid)
    requires HasOwner(row, tenantId, entityType, entityId)
    ensures FindByOwner(Upsert(table, row), tenantId, entityType, entityId).Some?
  {
  }

  /**
   * The coarse owner key ignores event type and uid: an owner can exist
   * while no stored event has the natural key being saved.
   */
  lemma OwnerKeyIsCoarserThanNaturalKey(table: seq<EventRow>, row: EventRow, eventType: string, eventUid: string)
    requires row in table && row.eventType != eventType
    requires forall r :: r in table && r.eventType == eventType ==> r.entityId != row.entityId
    ensures FindByOwner(table, row.tenantId, row.entityType, row.entityId).Some?
    ensures FindEvent(table, row.tenantId, EntityId(row.entityType, row.entityId), eventType, eventUid).None?
  {
  }

  // ------------------------------------------------------------ findEvents

  /**
   * The field filters of findEvents as one conjunction: a missing tenant,
   * entity or event type constrains nothing; an entity constrains both the
   * entity type and the entity id.
   */
  predicate MatchesFields(tenantId: Option<Uuid>, entityId: Option<EntityId>, eventType: Option<string>, r: EventRow)
  {
    (tenantId.None? || r.tenantId == tenantId.value) &&
    (entityId.None? || (r.entityType == entityId.value.entityType && r.entityId == entityId.value.id)) &&
    (eventType.None? || r.eventType == eventType.value)
  }

  /** One equality predicate on a column of the event table. */
  datatype FieldPredicate =
    | TenantIdEquals(tenantId: Uuid)
    | EntityTypeEquals(entityType: string)
    | EntityIdEquals(entityId: Uuid)
    | EventTypeEquals(eventType: string)

  predicate Holds(p: FieldPredicate, r: EventRow)
  {
    match p
    case TenantIdEquals(t) => r.tenantId == t
    case EntityTypeEquals(t) => r.entityType == t
    case EntityIdEquals(e) => r.entityId == e
    case EventTypeEquals(t) => r.eventType == t
  }

  /** The AND of a list of predicates; the AND of no predicates holds of every row. */
  predicate HoldsAll(ps: seq<FieldPredicate>, r: EventRow)
  {
    forall i :: 0 <= i < |ps| ==> Holds(ps[i], r)
  }

  lemma HoldsAllAppend(ps: seq<FieldPredicate>, p: FieldPredicate, r: EventRow)
    ensures HoldsAll(ps + [p], r) <==> HoldsAll(ps, r) && Holds(p, r)
  {
    if HoldsAll(ps, r) && Holds(p, r) {
      forall i | 0 <= i < |ps + [p]| ensures Holds((ps + [p])[i], r) {
        if i < |ps| { assert (ps + [p])[i] == ps[i]; }
      }
    }
    if HoldsAll(ps + [p], r) {
      forall i | 0 <= i < |ps| ensures Holds(ps[i], r) {
        assert (ps + [p])[i] == ps[i];
      }
      assert (ps + [p])[|ps|] == p;
    }
  }

  /**
   * getEntityFieldsSpec: the list of column predicates, one added for each
   * filter that is present; their AND selects exactly the rows MatchesFields does.
   */
  method EntityFieldsSpec(tenantId: Option<Uuid>, entityId: Option<EntityId>, eventType: Option<string>)
    returns (predicates: seq<FieldPredicate>)
    ensures forall r :: HoldsAll(predicates, r) <==> MatchesFields(tenantId, entityId, eventType, r)
    ensures tenantId.None? && entityId.None? && eventType.None? ==> predicates == []
    ensures entityId.Some? ==> EntityTypeEquals(entityId.value.entityType) in predicates &&
                               EntityIdEquals(entityId.value.id) in predicates
  {
    predicates := [];
    if tenantId.Some? {
      predicates := predicates + [TenantIdEquals(tenantId.value)];
    }
    ghost var afterTenant := predicates;
    if entityId.Some? {
      predicates := predicates + [EntityTypeEquals(entityId.value.entityType)];
      predicates := predicates + [EntityIdEquals(entityId.value.id)];
    }
    ghost var afterEntity := predicates;
    if eventType.Some? {
      predicates := predicates + [EventTypeEquals(eventType.value)];
    }
    forall r ensures HoldsAll(predicates, r) <==> MatchesFields(tenantId, entityId, eventType, r) {
      if tenantId.Some? {
        HoldsAllAppend([], TenantIdEquals(tenantId.value), r);
      }
      if entityId.Some? {
        HoldsAllAppend(afterTenant, EntityTypeEquals(entityId.value.entityType), r);
        HoldsAllAppend(afterTenant + [EntityTypeEquals(entityId.value.entityType)],
                       EntityIdEquals(entityId.value.id), r);
      }
      if eventType.Some? {
        HoldsAllAppend(afterEntity, EventTypeEquals(eventType.value), r);
      }
    }
  }

  /** A row findEvents selects: inside the time window and matching the field filters. */
  predicate Selected(link: TimePageLink, tenantId: Option<Uuid>, entityId: Option<EntityId>,
                     eventType: Option<string>, r: EventRow)
  {
    InTimeWindow(link, r.id) && MatchesFields(tenantId, entityId, eventType, r)
  }

  /** The filter of findEvents as a function on rows; the ensures lets proofs apply it. */
  function Selector(link: TimePageLink, tenantId: Option<Uuid>, entityId: Option<EntityId>, eventType: Option<string>)
    : (p: EventRow -> bool)
    ensures forall r :: p(r) == Selected(link, tenantId, entityId, eventType, r)
  {
    r => Selected(link, tenantId, entityId, eventType, r)
  }

  /**
   * findEvents: the first page of `link.limit` rows that are in the time
   * window and match the filters, ordered by id in the link's direction.
   */
  function FindEvents(table: seq<EventRow>, tenantId: Option<Uuid>, entityId: Option<EntityId>,
                      eventType: Option<string>, link: TimePageLink)
    : (page: Result<seq<EventRow>, QueryError>)
  {
    if link.limit < 1 then Failure(PageSizeLessThanOne)
    else Success(Take(SortById(link.ascOrder, Where(table, Selector(link, tenantId, entityId, eventType))), link.limit))
  }

  /** Every event findEvents returns is stored and satisfies every filter that was supplied. */
  lemma FindEventsMatchFilters(table: seq<EventRow>, tenantId: Option<Uuid>, entityId: Option<EntityId>,
                               eventType: Option<string>, link: TimePageLink)
    requires FindEvents(table, tenantId, entityId, eventType, link).Success?
    ensures var rows := FindEvents(table, tenantId, entityId, eventType, link).value;
            multiset(rows) <= multiset(table) &&
            forall r :: r in rows ==> InTimeWindow(link, r.id) &&
                                      (tenantId.Some? ==> r.tenantId == tenantId.value) &&
                                      (entityId.Some? ==> r.entityType == entityId.value.entityType &&
                                                          r.entityId == entityId.value.id) &&
                                      (eventType.Some? ==> r.eventType == eventType.value)
  {
    var selected := Where(table, Selector(link, tenantId, entityId, eventType));
    var sorted := SortById(link.ascOrder, selected);
    var rows := Take(sorted, link.limit);
    assert sorted == rows + sorted[|rows|..];
    assert multiset(rows) <= multiset(sorted);
    forall r | r in rows ensures Selected(link, tenantId, entityId, eventType, r) {
      assert r in multiset(sorted);
    }
  }

  /**
   * findEvents fails only on a page size below one; otherwise it returns at
   * most `limit` events, ordered by id in the requested direction, and an
   * empty table gives an empty page.
   */
  lemma FindEventsPageShape(table: seq<EventRow>, tenantId: Option<Uuid>, entityId: Option<EntityId>,
                            eventType: Option<string>, link: TimePageLink)
    ensures FindEvents(table, tenantId, entityId, eventType, link).Failure? <==> link.limit < 1
    ensures var page := FindEvents(table, tenantId, entityId, eventType, link);
            page.Success? ==> |page.value| <= link.limit && SortedById(link.ascOrder, page.value) &&
                              (table == [] ==> page.value == [])
  {
  }

  /**
   * The page is the first one: a selected event left out of it means the
   * page is full and every event on it comes no later than the one left out.
   */
  lemma {:induction false} FindEventsIsFirstPage(table: seq<EventRow>, tenantId: Option<Uuid>, entityId: Option<EntityId>,
                                                 eventType: Option<string>, link: TimePageLink, x: EventRow)
    requires link.limit >= 1
    requires x in table && Selected(link, tenantId, entityId, eventType, x)
    requires x !in FindEvents(table, tenantId, entityId, eventType, link).value
    ensures var rows := FindEvents(table, tenantId, entityId, eventType, link).value;
            |rows| == link.limit && forall y :: y in rows ==> InOrder(link.ascOrder, y, x)
  {
    var selected := Where(table, Selector(link, tenantId, entityId, eventType));
    var sorted := SortById(link.ascOrder, selected);
    var rows := Take(sorted, link.limit);
    assert x in selected;
    assert x in multiset(sorted);
    var k :| 0 <= k < |sorted| && sorted[k] == x;
    assert forall i :: 0 <= i < |rows| ==> sorted[i] in rows;
    assert k >= |rows|;
    forall y | y in rows ensures InOrder(link.ascOrder, y, x) {
      var i :| 0 <= i < |rows| && rows[i] == y;
      assert sorted[i] == y;
    }
  }

  /** With no filters at all, findEvents selects every row inside the time window. */
  lemma FindEventsWithoutFilters(table: seq<EventRow>, link: TimePageLink)
    requires link.limit >= 1
    ensures FindEvents(table, None, None, None, link) ==
            Success(Take(SortById(link.ascOrder, Where(table, (r: EventRow) => InTimeWindow(link, r.id))), link.limit))
  {
    WhereAgrees(table, Selector(link, None, None, None), (r: EventRow) => InTimeWindow(link, r.id));
  }

  // ------------------------------------------------------ findLatestEvents

  /** r matches the exact key of findLatestEvents: tenant, entity type, entity id and event type. */
  predicate HasLatestKey(r: EventRow, tenantId: Uuid, entityId: EntityId, eventType: string)
  {
    r.tenantId == tenantId && r.entityType == entityId.entityType && r.entityId == entityId.id &&
    r.eventType == eventType
  }

  /**
   * findLatestEvents: at most `limit` stored events with the exact key, and
   * all of them when fewer than `limit` exist; the order in which the
   * repository's query lists them is not part of the contract.
   */
  function FindLatestEvents(table: seq<EventRow>, tenantId: Uuid, entityId: EntityId, eventType: string, limit: int)
    : (latest: Result<seq<EventRow>, QueryError>)
    ensures latest.Failure? <==> limit < 1
    ensures latest.Success? ==> |latest.value| <= limit && multiset(latest.value) <= multiset(table)
    ensures latest.Success? ==> forall r :: r in latest.value ==> HasLatestKey(r, tenantId, entityId, eventType)
    ensures latest.Success? && |latest.value| < limit ==>
              forall r :: r in table && HasLatestKey(r, tenantId, entityId, eventType) ==> r in latest.value
  {
    if limit < 1 then Failure(PageSizeLessThanOne)
    else
      var matching := Where(table, r => HasLatestKey(r, tenantId, entityId, eventType));
      var rows := Take(matching, limit);
      assert matching == rows + matching[|rows|..];
      assert forall r :: r in rows ==> r in matching;
      Success(rows)
  }
}
