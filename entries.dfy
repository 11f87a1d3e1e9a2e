/**
 * The nutrition-entry routes: today's range in US Eastern time, the
 * range query ordered by creation time, insertion with a provenance tag
 * that defaults to "manual", and deletion by id.
 */
module Entries {
  import opened Wrappers
  import opened Tables

  /** The columns of `nutrition_entries` after its serial id. */
  datatype EntryFields = EntryFields(
    createdAt: int,
    description: string,
    calories: real,
    protein: real,
    fiber: real,
    entryType: string)

  type Entry = Row<EntryFields>

  const Manual: string := "manual"

  // ---------------------------------------------------------------------
  // Today's range
  // ---------------------------------------------------------------------

  /**
   * What the time-zone conversion yields, in milliseconds: the current
   * Eastern wall-clock reading (re-read as if it were a host-local time),
   * local midnight of that calendar day, and local midnight of the next.
   */
  datatype EasternClock = EasternClock(eastern: int, startET: int, endET: int)

  /** A half-open interval of instants [start, end). */
  datatype Range = Range(start: int, end: int)

  predicate Contains(r: Range, t: int) {
    r.start <= t < r.end
  }

  /**
   * Both Eastern midnights shifted back by `offsetMs`, the gap between
   * the Eastern reading and the clock `now`. The range is as wide as the
   * Eastern day, `now` sits as far into it as the Eastern reading sits
   * into its day, and so it contains `now` exactly when the reading lies
   * between its two midnights.
   */
  function TodayRange(now: int, clock: EasternClock): (r: Range)
    ensures r.end - r.start == clock.endET - clock.startET
    ensures now - r.start == clock.eastern - clock.startET
    ensures Contains(r, now) <==> clock.startET <= clock.eastern < clock.endET
  {
    var offsetMs := clock.eastern - now;
    Range(clock.startET - offsetMs, clock.endET - offsetMs)
  }

  // ---------------------------------------------------------------------
  // The range query
  // ---------------------------------------------------------------------

  /** WHERE created_at >= start AND created_at < end. */
  function InRange(rows: seq<Entry>, r: Range): (s: seq<Entry>)
    ensures forall x :: multiset(s)[x] == if Contains(r, x.fields.createdAt) then multiset(rows)[x] else 0
    ensures forall x :: x in s <==> x in rows && Contains(r, x.fields.createdAt)
  {
    if rows == [] then []
    else
      assert rows == [rows[0]] + rows[1..];
      if Contains(r, rows[0].fields.createdAt) then [rows[0]] + InRange(rows[1..], r)
      else InRange(rows[1..], r)
  }

  predicate SortedByCreatedAt(s: seq<Entry>) {
    forall i, j :: 0 <= i < j < |s| ==> s[i].fields.createdAt <= s[j].fields.createdAt
  }

  /** Puts `e` into the creation-ordered `s`, before the first later entry. */
  function InsertByCreatedAt(e: Entry, s: seq<Entry>): (r: seq<Entry>)
    requires SortedByCreatedAt(s)
    ensures SortedByCreatedAt(r)
    ensures multiset(r) == multiset(s) + multiset{e}
    ensures forall x :: x in r ==> x == e || x in s
  {
    if s == [] then [e]
    else if e.fields.createdAt <= s[0].fields.createdAt then
      ConsSorted(e, s);
      [e] + s
    else
      var rest := InsertByCreatedAt(e, s[1..]);
      assert s == [s[0]] + s[1..];
      assert forall x :: x in rest ==> s[0].fields.createdAt <= x.fields.createdAt;
      ConsSorted(s[0], rest);
      [s[0]] + rest
  }

  /** An entry no later than every entry of a creation-ordered sequence can go in front. */
  lemma ConsSorted(x: Entry, s: seq<Entry>)
    requires SortedByCreatedAt(s)
    requires forall y :: y in s ==> x.fields.createdAt <= y.fields.createdAt
    ensures SortedByCreatedAt([x] + s)
  {
    var r := [x] + s;
    forall i, j | 0 <= i < j < |r| ensures r[i].fields.createdAt <= r[j].fields.createdAt {
      assert r[j] == s[j - 1];
      if i > 0 {
        assert r[i] == s[i - 1];
      }
    }
  }

  /** ORDER BY created_at, ascending; ties come out in some order. */
  function SortByCreatedAt(s: seq<Entry>): (r: seq<Entry>)
    ensures SortedByCreatedAt(r)
    ensures multiset(r) == multiset(s)
  {
    if s == [] then []
    else
      assert s == [s[0]] + s[1..];
      InsertByCreatedAt(s[0], SortByCreatedAt(s[1..]))
  }

  /**
   * The entries created within `r`, earliest first: every entry the table
   * holds in the range, once for each time it is held, and no other.
   */
  function ListRange(rows: seq<Entry>, r: Range): (s: seq<Entry>)
    ensures SortedByCreatedAt(s)
    ensures multiset(s) == multiset(InRange(rows, r))
    ensures forall x :: x in s <==> x in rows && Contains(r, x.fields.createdAt)
  {
    var s := SortByCreatedAt(InRange(rows, r));
    assert forall x :: x in s <==> x in multiset(InRange(rows, r));
    s
  }

  /**
   * GET /: today's entries. Any date parameter is ignored; the table is
   * only read (the method may modify nothing).
   */
  method GetToday(t: Table<EntryFields>, now: int, clock: EasternClock) returns (entries: seq<Entry>)
    ensures entries == ListRange(t.rows, TodayRange(now, clock))
  {
    var range := TodayRange(now, clock);
    entries := ListRange(t.rows, range);
  }

  // ---------------------------------------------------------------------
  // Insertion and deletion
  // ---------------------------------------------------------------------

  /** `type || "manual"`: an absent or empty type becomes "manual", any other is kept. */
  function TypeOrManual(entryType: Option<string>): (k: string)
    ensures k != ""
    ensures entryType.Some? && entryType.value != "" ==> k == entryType.value
    ensures entryType.None? || entryType.value == "" ==> k == Manual
  {
    if entryType.Some? && entryType.value != "" then entryType.value else Manual
  }

  /**
   * The VALUES of the insert, with `now` as the database's default for
   * created_at. A body field that is absent or null reaches a NOT NULL
   * column and the insert is rejected; an empty description is accepted.
   */
  function EntryValues(
    description: Option<string>, calories: Option<real>, protein: Option<real>,
    fiber: Option<real>, entryType: Option<string>, now: int): (r: Result<EntryFields, DbError>)
    ensures r.Success? <==> description.Some? && calories.Some? && protein.Some? && fiber.Some?
    ensures r.Failure? ==> r.error == NotNullViolation
    ensures r.Success? ==>
      && r.value.createdAt == now
      && r.value.description == description.value
      && r.value.calories == calories.value
      && r.value.protein == protein.value
      && r.value.fiber == fiber.value
      && r.value.entryType == TypeOrManual(entryType)
  {
    if description.None? || calories.None? || protein.None? || fiber.None? then
      Failure(NotNullViolation)
    else
      Success(EntryFields(now, description.value, calories.value, protein.value, fiber.value,
                          TypeOrManual(entryType)))
  }

  /**
   * POST /: appends one entry with a fresh id and returns it, or, when a
   * required field is missing, reports the failure and leaves the table as it was.
   */
  method Add(
    t: Table<EntryFields>, description: Option<string>, calories: Option<real>,
    protein: Option<real>, fiber: Option<real>, entryType: Option<string>, now: int)
    returns (r: Result<Entry, DbError>)
    requires t.Valid()
    modifies t
    ensures t.Valid()
    ensures EntryValues(description, calories, protein, fiber, entryType, now).Failure? ==>
      r == Failure(NotNullViolation) && t.State() == old(t.State())
    ensures EntryValues(description, calories, protein, fiber, entryType, now).Success? ==>
      && r == Success(Row(old(t.nextId), EntryValues(description, calories, protein, fiber, entryType, now).value))
      && r.value.id !in Ids(old(t.rows))
      && t.State() == Insert(old(t.State()), r.value.fields)
  {
    var values := EntryValues(description, calories, protein, fiber, entryType, now);
    if values.Failure? {
      r := Failure(values.error);
    } else {
      var entry := t.InsertValues(values.value);
      r := Success(entry);
    }
  }

  /**
   * DELETE /:id, given `parseInt` of the path parameter (None for NaN).
   * For any id in the key column's range it removes the rows with that
   * id, if any, and reports success. NaN or an id out of that range makes
   * the statement fail: the table is unchanged and the handler answers
   * 500, here `success == false`.
   */
  method Delete(t: Table<EntryFields>, id: Option<int>) returns (success: bool)
    requires t.Valid()
    modifies t
    ensures t.Valid()
    ensures success <==> id.Some? && IsInt4(id.value)
    ensures t.rows == (if success then WithoutId(old(t.rows), id.value) else old(t.rows))
    ensures t.nextId == old(t.nextId)
  {
    if id.None? {
      return false;
    }
    success := t.DeleteWhereId(id.value);
  }

  // ---------------------------------------------------------------------
  // Properties across operations
  // ---------------------------------------------------------------------

  /**
   * An entry added at `now` is in the listing of a GET issued at the same
   * instant, provided the Eastern reading lies within its own day.
   */
  lemma AddedEntryListedToday(st: Store<EntryFields>, f: EntryFields, now: int, clock: EasternClock)
    requires f.createdAt == now
    requires clock.startET <= clock.eastern < clock.endET
    ensures Row(st.nextId, f) in ListRange(Insert(st, f).rows, TodayRange(now, clock))
  {
    assert Insert(st, f).rows[|st.rows|] == Row(st.nextId, f);
  }

  /** After a delete no listing holds an entry with the deleted id. */
  lemma DeletedEntryNotListed(rows: seq<Entry>, id: int, r: Range)
    ensures forall x :: x in ListRange(WithoutId(rows, id), r) ==> x.id != id
  {
  }
}
