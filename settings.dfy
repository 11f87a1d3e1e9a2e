/**
 * The settings routes: a single row of daily targets, created with the
 * column defaults on the first read, and created or rewritten on update.
 */
module Settings {
  import opened Tables

  /** The columns of `user_settings` after its serial id. */
  datatype Targets = Targets(dailyCalorieTarget: int, dailyProteinTarget: int, dailyFiberTarget: int)

  type SettingsRow = Row<Targets>

  /** The column defaults, which an insert with no values fills in. */
  const Defaults: Targets := Targets(2000, 150, 30)

  /** What a handler leaves behind: the table afterwards and the row it sends back. */
  datatype Reply = Reply(store: Store<Targets>, row: SettingsRow)

  /**
   * GET /: an empty table gets one row of defaults under a fresh id, which
   * is sent back; otherwise the first row is sent back and nothing changes.
   * Either way the table is non-empty afterwards and its first row is the
   * one sent back.
   */
  function GetOrCreate(st: Store<Targets>): (r: Reply)
    ensures st.rows == [] ==> r.store == Insert(st, Defaults) && r.row == Row(st.nextId, Defaults)
    ensures st.rows != [] ==> r.store == st
    ensures r.store.rows != [] && r.row == r.store.rows[0]
  {
    if |st.rows| == 0 then Reply(Insert(st, Defaults), Row(st.nextId, Defaults))
    else Reply(st, st.rows[0])
  }

  /**
   * PUT /: an empty table gets one row holding `t`; otherwise the rows
   * whose id is that of the first row are rewritten to hold `t`, and the
   * first of the rows the update returns is sent back. The row sent back
   * holds `t`, the row count is 1 or unchanged, and the first row keeps its id.
   */
  function UpdateOrCreate(st: Store<Targets>, t: Targets): (r: Reply)
    ensures r.row.fields == t
    ensures r.store.nextId == if st.rows == [] then st.nextId + 1 else st.nextId
    ensures |r.store.rows| == if st.rows == [] then 1 else |st.rows|
    ensures st.rows == [] ==> r.store == Insert(st, t) && r.row == Row(st.nextId, t)
    ensures st.rows != [] ==> r.row.id == r.store.rows[0].id == st.rows[0].id
  {
    if |st.rows| == 0 then Reply(Insert(st, t), Row(st.nextId, t))
    else
      var id := st.rows[0].id;
      var rows := SetWhereId(st.rows, id, t);
      assert rows[0] in WithId(rows, id);
      Reply(Store(rows, st.nextId), WithId(rows, id)[0])
  }

  /** With a unique key, an update of a non-empty table rewrites its first row and nothing else. */
  lemma UpdateRewritesOnlyFirstRow(st: Store<Targets>, t: Targets)
    requires WellFormed(st) && st.rows != []
    ensures UpdateOrCreate(st, t).store.rows == st.rows[0 := Row(st.rows[0].id, t)]
    ensures UpdateOrCreate(st, t).row == Row(st.rows[0].id, t)
  {
    SetWhereIdOneRow(st, 0, t);
  }

  method Get(table: Table<Targets>) returns (settings: SettingsRow)
    requires table.Valid()
    modifies table
    ensures table.Valid()
    ensures Reply(table.State(), settings) == GetOrCreate(old(table.State()))
  {
    var rows := table.rows;
    if |rows| == 0 {
      settings := table.InsertValues(Defaults);
      return;
    }
    settings := rows[0];
  }

  method Put(table: Table<Targets>, dailyCalorieTarget: int, dailyProteinTarget: int, dailyFiberTarget: int)
    returns (settings: SettingsRow)
    requires table.Valid()
    modifies table
    ensures table.Valid()
    ensures Reply(table.State(), settings)
         == UpdateOrCreate(old(table.State()), Targets(dailyCalorieTarget, dailyProteinTarget, dailyFiberTarget))
  {
    var targets := Targets(dailyCalorieTarget, dailyProteinTarget, dailyFiberTarget);
    var rows := table.rows;
    if |rows| == 0 {
      settings := table.InsertValues(targets);
      return;
    }
    var updated := table.UpdateWhereId(rows[0].id, targets);
    assert table.rows[0] in updated;
    settings := updated[0];
  }

  // ---------------------------------------------------------------------
  // Sequences of calls
  // ---------------------------------------------------------------------

  /** A request to the settings routes. */
  datatype Call = Read | Write(targets: Targets)

  function Apply(st: Store<Targets>, c: Call): Store<Targets> {
    match c
    case Read => GetOrCreate(st).store
    case Write(t) => UpdateOrCreate(st, t).store
  }

  /** The table after handling `calls` one after another. */
  function Run(st: Store<Targets>, calls: seq<Call>): Store<Targets>
    decreases |calls|
  {
    if calls == [] then st else Run(Apply(st, calls[0]), calls[1..])
  }

  /** Handling calls keeps the table's integrity. */
  lemma {:induction false} RunWellFormed(st: Store<Targets>, calls: seq<Call>)
    requires WellFormed(st)
    ensures WellFormed(Run(st, calls))
    decreases |calls|
  {
    if calls != [] {
      RunWellFormed(Apply(st, calls[0]), calls[1..]);
    }
  }

  /** Calls never remove a row, and only a call on an empty table adds one. */
  lemma {:induction false} RunRowCount(st: Store<Targets>, calls: seq<Call>)
    ensures |Run(st, calls).rows| == if calls == [] || st.rows != [] then |st.rows| else 1
    decreases |calls|
  {
    if calls != [] {
      RunRowCount(Apply(st, calls[0]), calls[1..]);
    }
  }

  /** Starting from at most one row, the table holds exactly one row after the first call. */
  lemma SingletonAfterAnyCalls(st: Store<Targets>, calls: seq<Call>)
    requires |st.rows| <= 1 && calls != []
    ensures |Run(st, calls).rows| == 1
  {
    RunRowCount(st, calls);
  }

  /**
   * Once the table holds its single row, no call changes that row's id.
   * With two or more rows an unordered SELECT may return any row first,
   * so nothing is claimed there.
   */
  lemma {:induction false} RunKeepsFirstId(st: Store<Targets>, calls: seq<Call>)
    requires |st.rows| == 1
    ensures Run(st, calls).rows != [] && Run(st, calls).rows[0].id == st.rows[0].id
    decreases |calls|
  {
    if calls != [] {
      RunKeepsFirstId(Apply(st, calls[0]), calls[1..]);
    }
  }

  /**
   * Every GET after a first GET, whatever calls come between, sends back
   * the row with the same id; with no calls between, the two GETs also
   * leave the same table. This is claimed from the states the routes
   * reach, a table of at most one row.
   */
  lemma ReadsAgree(st: Store<Targets>, calls: seq<Call>)
    requires |st.rows| <= 1
    ensures GetOrCreate(Run(Apply(st, Read), calls)).row.id == GetOrCreate(st).row.id
    ensures calls == [] ==> GetOrCreate(Apply(st, Read)).store == Apply(st, Read)
  {
    RunKeepsFirstId(Apply(st, Read), calls);
  }
}
