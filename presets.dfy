/**
 * The preset-food routes: the name-ordered listing, insertion and
 * deletion by id, over a table that no other table refers to.
 */
module Presets {
  import opened Wrappers
  import opened Tables
  import opened StringOrder

  /** The columns of `preset_foods` after its serial id. */
  datatype PresetFields = PresetFields(name: string, calories: real, protein: real, fiber: real)

  type Preset = Row<PresetFields>

  predicate SortedByName(s: seq<Preset>) {
    forall i, j :: 0 <= i < j < |s| ==> LexLe(s[i].fields.name, s[j].fields.name)
  }

  /** A preset whose name sorts no later than every name of a name-ordered sequence can go in front. */
  lemma ConsSortedByName(x: Preset, s: seq<Preset>)
    requires SortedByName(s)
    requires forall y :: y in s ==> LexLe(x.fields.name, y.fields.name)
    ensures SortedByName([x] + s)
  {
    var r := [x] + s;
    forall i, j | 0 <= i < j < |r| ensures LexLe(r[i].fields.name, r[j].fields.name) {
      assert r[j] == s[j - 1];
      if i > 0 {
        assert r[i] == s[i - 1];
      }
    }
  }

  /** Puts `p` into the name-ordered `s`, before the first name that sorts after it. */
  function InsertByName(p: Preset, s: seq<Preset>): (r: seq<Preset>)
    requires SortedByName(s)
    ensures SortedByName(r)
    ensures multiset(r) == multiset(s) + multiset{p}
    ensures forall x :: x in r ==> x == p || x in s
  {
    if s == [] then [p]
    else if LexLe(p.fields.name, s[0].fields.name) then
      assert forall y :: y in s ==> LexLe(p.fields.name, y.fields.name) by {
        forall y | y in s ensures LexLe(p.fields.name, y.fields.name) {
          var k :| 0 <= k < |s| && s[k] == y;
          if k > 0 {
            LexLeTransitive(p.fields.name, s[0].fields.name, y.fields.name);
          }
        }
      }
      ConsSortedByName(p, s);
      [p] + s
    else
      var rest := InsertByName(p, s[1..]);
      assert s == [s[0]] + s[1..];
      LexLeTotal(p.fields.name, s[0].fields.name);
      assert forall x :: x in rest ==> LexLe(s[0].fields.name, x.fields.name);
      ConsSortedByName(s[0], rest);
      [s[0]] + rest
  }

  /** ORDER BY name; presets with equal names come out in some order. */
  function SortByName(s: seq<Preset>): (r: seq<Preset>)
    ensures SortedByName(r)
    ensures multiset(r) == multiset(s)
  {
    if s == [] then []
    else
      assert s == [s[0]] + s[1..];
      InsertByName(s[0], SortByName(s[1..]))
  }

  /**
   * GET /: every preset, each as often as the table holds it, in name
   * order; the table is only read (the method may modify nothing).
   */
  method List(t: Table<PresetFields>) returns (presets: seq<Preset>)
    ensures SortedByName(presets)
    ensures multiset(presets) == multiset(t.rows)
  {
    presets := SortByName(t.rows);
  }

  /**
   * The VALUES of the insert. A body field that is absent or null reaches
   * a NOT NULL column and the insert is rejected; an empty name is accepted.
   */
  function PresetValues(
    name: Option<string>, calories: Option<real>, protein: Option<real>,
    fiber: Option<real>): (r: Result<PresetFields, DbError>)
    ensures r.Success? <==> name.Some? && calories.Some? && protein.Some? && fiber.Some?
    ensures r.Failure? ==> r.error == NotNullViolation
    ensures r.Success? ==>
      r.value == PresetFields(name.value, calories.value, protein.value, fiber.value)
  {
    if name.None? || calories.None? || protein.None? || fiber.None? then
      Failure(NotNullViolation)
    else
      Success(PresetFields(name.value, calories.value, protein.value, fiber.value))
  }

  /**
   * POST /: appends one preset with a fresh id and returns it, or, when a
   * required field is missing, reports the failure and leaves the table as it was.
   */
  method Add(
    t: Table<PresetFields>, name: Option<string>, calories: Option<real>,
    protein: Option<real>, fiber: Option<real>)
    returns (r: Result<Preset, DbError>)
    requires t.Valid()
    modifies t
    ensures t.Valid()
    ensures PresetValues(name, calories, protein, fiber).Failure? ==>
      r == Failure(NotNullViolation) && t.State() == old(t.State())
    ensures PresetValues(name, calories, protein, fiber).Success? ==>
      && r == Success(Row(old(t.nextId), PresetValues(name, calories, protein, fiber).value))
      && r.value.id !in Ids(old(t.rows))
      && t.State() == Insert(old(t.State()), r.value.fields)
  {
    var values := PresetValues(name, calories, protein, fiber);
    if values.Failure? {
      r := Failure(values.error);
    } else {
      var preset := t.InsertValues(values.value);
      r := Success(preset);
    }
  }

  /**
   * DELETE /:id, given `parseInt` of the path parameter (None for NaN).
   * For any id in the key column's range it removes the rows with that
   * id, if any, and reports success. NaN or an id out of that range makes
   * the statement fail: the table is unchanged and the handler answers
   * 500, here `success == false`.
   */
  method Delete(t: Table<PresetFields>, id: Option<int>) returns (success: bool)
    requires t.Valid()
    modifies t
    ensures t.Valid()
    ensures success <==> id.Some? && IsInt4(id.value)
    ensures t.rows == (if success then WithoutId(old(t.rows), id.value) else old(t.rows))
    ensures t.nextId == old(t.nextId)
  {
    if id.None? {
      return false;
    }
    success := t.DeleteWhereId(id.value);
  }

  /**
   * A second DELETE of the same id answers as the first did, and the two
   * together leave the table exactly as one delete leaves it.
   */
  method DeleteTwice(t: Table<PresetFields>, id: Option<int>) returns (first: bool, second: bool)
    requires t.Valid()
    modifies t
    ensures t.Valid() && first == second
    ensures first <==> id.Some? && IsInt4(id.value)
    ensures t.rows == (if first then WithoutId(old(t.rows), id.value) else old(t.rows))
    ensures t.nextId == old(t.nextId)
  {
    first := Delete(t, id);
    second := Delete(t, id);
    if first {
      WithoutIdIdempotent(old(t.rows), id.value);
    }
  }
}
