/**
 * The event table as a sequence of rows, and what the repository does with
 * it: upsert by id, single-result lookup, filtering, ordering by id and
 * taking the first page.
 */
module EventTable {
  import opened Wrappers
  import opened Events

  /** No two rows share an id: the id is the table's primary key. */
  predicate UniqueIds(t: seq<EventRow>)
  {
    forall i, j :: 0 <= i < j < |t| ==> t[i].id != t[j].id
  }

  /**
   * The repository's save: the row replaces the row with the same id, or is
   * added when there is none.
   */
  function Upsert(t: seq<EventRow>, row: EventRow): (r: seq<EventRow>)
    ensures row in r
    ensures forall x :: x in r ==> x == row || x in t
    ensures forall x :: x in t && x.id != row.id ==> x in r
    ensures UniqueIds(t) ==> UniqueIds(r) && forall x :: x in r && x.id == row.id ==> x == row
    ensures |r| <= |t| + 1
  {
    if t == [] then [row]
    else if t[0].id == row.id then [row] + t[1..]
    else
      var rest := Upsert(t[1..], row);
      assert forall x :: x in t[1..] ==> x in t;
      assert UniqueIds(t) ==> forall x :: x in rest ==> x.id != t[0].id;
      [t[0]] + rest
  }

  /** The first row that satisfies p, or none when no row does. */
  function FindFirst(t: seq<EventRow>, p: EventRow -> bool): (r: Option<EventRow>)
    ensures r.Some? ==> r.value in t && p(r.value)
    ensures r.None? <==> forall x :: x in t ==> !p(x)
  {
    if t == [] then None
    else if p(t[0]) then Some(t[0])
    else FindFirst(t[1..], p)
  }

  /** The rows that satisfy p, in table order. */
  function Where(t: seq<EventRow>, p: EventRow -> bool): (r: seq<EventRow>)
    ensures forall x :: x in r <==> x in t && p(x)
    ensures multiset(r) <= multiset(t)
  {
    if t == [] then []
    else
      assert t == [t[0]] + t[1..];
      (if p(t[0]) then [t[0]] else []) + Where(t[1..], p)
  }

  /** Filters that agree on every row of t select the same rows. */
  lemma {:induction false} WhereAgrees(t: seq<EventRow>, p: EventRow -> bool, q: EventRow -> bool)
    requires forall x :: x in t ==> p(x) == q(x)
    ensures Where(t, p) == Where(t, q)
  {
    if t != [] {
      assert forall x :: x in t[1..] ==> x in t;
      WhereAgrees(t[1..], p, q);
    }
  }

  /** The first page of s: its first n rows, or all of them when there are fewer. */
  function Take(s: seq<EventRow>, n: nat): seq<EventRow>
  {
    if n < |s| then s[..n] else s
  }

  /** a comes no later than b when rows are ordered by id, ascending or descending. */
  predicate InOrder(asc: bool, a: EventRow, b: EventRow)
  {
    if asc then a.id <= b.id else b.id <= a.id
  }

  /** The rows of s are ordered by id in the given direction. */
  predicate SortedById(asc: bool, s: seq<EventRow>)
  {
    forall i, j :: 0 <= i < j < |s| ==> InOrder(asc, s[i], s[j])
  }

  /** For Insert: a row that precedes every row of an ordered list can be put in front of it. */
  lemma SortedCons(asc: bool, a: EventRow, s: seq<EventRow>)
    requires SortedById(asc, s)
    requires forall j :: 0 <= j < |s| ==> InOrder(asc, a, s[j])
    ensures SortedById(asc, [a] + s)
  {
  }

  /**
   * For Insert: the head of an ordered list precedes every row of the list
   * that Insert builds from its tail and a row the head precedes.
   */
  lemma HeadPrecedesAll(asc: bool, x: EventRow, s: seq<EventRow>, r: seq<EventRow>)
    requires SortedById(asc, s) && s != []
    requires InOrder(asc, s[0], x)
    requires multiset(r) == multiset(s[1..]) + multiset{x}
    ensures forall j :: 0 <= j < |r| ==> InOrder(asc, s[0], r[j])
  {
    forall j | 0 <= j < |r| ensures InOrder(asc, s[0], r[j]) {
      var y := r[j];
      assert y in multiset(r);
      if y != x {
        assert y in multiset(s[1..]);
        var k :| 0 <= k < |s[1..]| && s[1..][k] == y;
        assert s[k + 1] == y;
      }
    }
  }

  /** x inserted into the ordered s at its place. */
  function Insert(asc: bool, x: EventRow, s: seq<EventRow>): (r: seq<EventRow>)
    requires SortedById(asc, s)
    ensures SortedById(asc, r)
    ensures multiset(r) == multiset(s) + multiset{x}
  {
    if s == [] || InOrder(asc, x, s[0]) then
      SortedCons(asc, x, s);
      [x] + s
    else
      assert s == [s[0]] + s[1..];
      var rest := Insert(asc, x, s[1..]);
      HeadPrecedesAll(asc, x, s, rest);
      SortedCons(asc, s[0], rest);
      [s[0]] + rest
  }

  /** The rows of s ordered by id, ascending when asc holds and descending otherwise. */
  function SortById(asc: bool, s: seq<EventRow>): (r: seq<EventRow>)
    ensures SortedById(asc, r)
    ensures multiset(r) == multiset(s)
  {
    if s == [] then []
    else
      assert s == [s[0]] + s[1..];
      Insert(asc, s[0], SortById(asc, s[1..]))
  }
}
