/** The property generators. Each picks a table, builds the queries the
    property is about, and walks a list of candidate filler queries,
    keeping the ones that cannot falsify the property and skipping the
    rest without replacing them. Random choices arrive as inputs: the
    table's index, the generated rows and the selected row's index, the
    candidates the query provider produced, and the provider's predicate
    for the SELECT. */
module Generation {
  import opened Model
  import opened Environment
  import opened Plan
  import opened Properties
  import opened Sequences

  /** An Insert-Select filler must not delete the selected row from the
      property's table, nor create a table of the same name (which would
      fail in the middle of the script). */
  predicate SoundInsertSelectFiller(q: Query, table: Table, row: Row, test: Tester)
  {
    match q
    case DeleteQuery(Delete(t, condition)) => !(t == table.name && test(condition, row, table))
    case CreateQuery(Create(t)) => t.name != table.name
    case _ => true
  }

  /** A Double-Create-Failure filler must not create the table early. */
  predicate SoundDoubleCreateFiller(q: Query, table: Table)
  {
    match q
    case CreateQuery(Create(t)) => t.name != table.name
    case _ => true
  }

  /** The fillers Insert-Select keeps, in candidate order. */
  function InsertSelectFillers(candidates: seq<Query>, table: Table, row: Row, test: Tester): seq<Query>
  {
    Filter(candidates, (q: Query) => SoundInsertSelectFiller(q, table, row, test))
  }

  /** The fillers Double-Create-Failure keeps, in candidate order. */
  function DoubleCreateFillers(candidates: seq<Query>, table: Table): seq<Query>
  {
    Filter(candidates, (q: Query) => SoundDoubleCreateFiller(q, table))
  }

  /** Builds an Insert-Select property on the table at `tableIndex`:
      `rows` are inserted (one to five of them), the row at `rowIndex` is
      the one selected back with `condition`, and at most two candidate
      fillers are tried. */
  method PropertyInsertSelect(
    env: Env, tableIndex: nat, rows: seq<Row>, rowIndex: nat,
    candidates: seq<Query>, condition: Predicate, test: Tester)
    returns (p: Property)
    requires tableIndex < |env.tables|
    requires 1 <= |rows| <= 5 && rowIndex < |rows|
    requires |candidates| < 3
    ensures WellFormed(p)
    ensures var table := env.tables[tableIndex];
      p == InsertSelect(
        Insert(table.name, rows),
        rowIndex,
        InsertSelectFillers(candidates, table, rows[rowIndex], test),
        Select(table.name, condition))
  {
    var table := env.tables[tableIndex];
    var row := rows[rowIndex];
    var insertQuery := Insert(table.name, rows);
    var queries: seq<Query> := [];
    for i := 0 to |candidates|
      invariant queries == InsertSelectFillers(candidates[..i], table, row, test)
    {
      assert candidates[..i + 1][..i] == candidates[..i];
      var query := candidates[i];
      match query {
        case DeleteQuery(Delete(t, deleteCondition)) =>
          if t == table.name && test(deleteCondition, row, table) {
            continue;
          }
        case CreateQuery(Create(t)) =>
          if t.name == table.name {
            continue;
          }
        case _ =>
      }
      queries := queries + [query];
    }
    assert candidates[..|candidates|] == candidates;
    var selectQuery := Select(table.name, condition);
    p := InsertSelect(insertQuery, rowIndex, queries, selectQuery);
  }

  /** Builds a Double-Create-Failure property around `table`, trying at
      most two candidate fillers. */
  method DoubleCreateFailureOn(table: Table, candidates: seq<Query>) returns (p: Property)
    requires |candidates| < 3
    ensures p == DoubleCreateFailure(Create(table), DoubleCreateFillers(candidates, table))
  {
    var createQuery := Create(table);
    var queries: seq<Query> := [];
    for i := 0 to |candidates|
      invariant queries == DoubleCreateFillers(candidates[..i], table)
    {
      assert candidates[..i + 1][..i] == candidates[..i];
      var query := candidates[i];
      match query {
        case CreateQuery(Create(t)) =>
          if t.name == table.name {
            continue;
          }
        case _ =>
      }
      queries := queries + [query];
    }
    assert candidates[..|candidates|] == candidates;
    p := DoubleCreateFailure(createQuery, queries);
  }

  /** The generator as written: the table to create twice is picked from
      the tables the environment already has. */
  method PropertyDoubleCreateFailure(env: Env, tableIndex: nat, candidates: seq<Query>)
    returns (p: Property)
    requires tableIndex < |env.tables|
    requires |candidates| < 3
    ensures var table := env.tables[tableIndex];
      p == DoubleCreateFailure(Create(table), DoubleCreateFillers(candidates, table))
  {
    var table := env.tables[tableIndex];
    p := DoubleCreateFailureOn(table, candidates);
  }

  /** The Insert-Select generator picks an existing table, so its
      assumption holds in the environment it was generated from. */
  lemma PickedTablePassesInsertSelectAssumption(
    env: Env, tableIndex: nat, rows: seq<Row>, rowIndex: nat, fillers: seq<Query>,
    condition: Predicate, stack: seq<ResultSet>)
    requires tableIndex < |env.tables| && rowIndex < |rows|
    ensures var table := env.tables[tableIndex];
      var p := InsertSelect(Insert(table.name, rows), rowIndex, fillers, Select(table.name, condition));
      Eval(Interactions(p)[0].assertion.check, stack, env) == Ok(true)
  {
    var table := env.tables[tableIndex];
    InsertSelectLayout(InsertSelect(Insert(table.name, rows), rowIndex, fillers, Select(table.name, condition)));
  }

  /** As written, the Double-Create-Failure generator can never produce a
      usable property: the table it picks exists in the environment, so the
      property's own assumption ("the table does not exist yet") is false
      there, for every environment, pick and candidate list. */
  lemma PickedTableFailsDoubleCreateAssumption(
    env: Env, tableIndex: nat, candidates: seq<Query>, stack: seq<ResultSet>)
    requires tableIndex < |env.tables|
    ensures var table := env.tables[tableIndex];
      var p := DoubleCreateFailure(Create(table), DoubleCreateFillers(candidates, table));
      Eval(Interactions(p)[0].assertion.check, stack, env) == Ok(false)
  {
    var table := env.tables[tableIndex];
    DoubleCreateLayout(DoubleCreateFailure(Create(table), DoubleCreateFillers(candidates, table)));
  }

  /** Built around a table whose name the environment does not have yet
      (a freshly generated schema), the Double-Create-Failure property
      passes its assumption, and its assertion then checks for the
      "already exists" error on that name. */
  lemma FreshTablePassesDoubleCreateAssumption(
    env: Env, table: Table, candidates: seq<Query>, stack: seq<ResultSet>)
    requires forall i | 0 <= i < |env.tables| :: env.tables[i].name != table.name
    ensures var p := DoubleCreateFailure(Create(table), DoubleCreateFillers(candidates, table));
      var s := Interactions(p);
      && Eval(s[0].assertion.check, stack, env) == Ok(true)
      && s[|s| - 1].assertion.check == LastErrorAlreadyExists(table.name)
  {
    DoubleCreateLayout(DoubleCreateFailure(Create(table), DoubleCreateFillers(candidates, table)));
  }

  /** The generator corrected: the table to create twice is a new schema
      whose name the environment does not have, so the property's
      assumption holds and the script goes on to the two creates. */
  method PropertyDoubleCreateFailureFresh(env: Env, table: Table, candidates: seq<Query>)
    returns (p: Property)
    requires forall i | 0 <= i < |env.tables| :: env.tables[i].name != table.name
    requires |candidates| < 3
    ensures p == DoubleCreateFailure(Create(table), DoubleCreateFillers(candidates, table))
    ensures forall stack: seq<ResultSet> :: Eval(Interactions(p)[0].assertion.check, stack, env) == Ok(true)
  {
    p := DoubleCreateFailureOn(table, candidates);
    forall stack: seq<ResultSet> ensures Eval(Interactions(p)[0].assertion.check, stack, env) == Ok(true) {
      FreshTablePassesDoubleCreateAssumption(env, table, candidates, stack);
    }
  }

  /** A candidate survives the Insert-Select filter exactly when it is not
      a delete of the selected row from the table and not a create of a
      table with the same name. */
  lemma InsertSelectFillersExact(candidates: seq<Query>, table: Table, row: Row, test: Tester, q: Query)
    ensures q in InsertSelectFillers(candidates, table, row, test) <==>
      && q in candidates
      && !(q.DeleteQuery? && q.delete.table == table.name && test(q.delete.condition, row, table))
      && !(q.CreateQuery? && q.create.table.name == table.name)
  {
    FilterMembership(candidates, (q: Query) => SoundInsertSelectFiller(q, table, row, test), q);
  }

  /** A candidate survives the Double-Create-Failure filter exactly when it
      is not a create of a table with the same name. */
  lemma DoubleCreateFillersExact(candidates: seq<Query>, table: Table, q: Query)
    ensures q in DoubleCreateFillers(candidates, table) <==>
      q in candidates && !(q.CreateQuery? && q.create.table.name == table.name)
  {
    FilterMembership(candidates, (q: Query) => SoundDoubleCreateFiller(q, table), q);
  }

  /** The compiled script of a generated Insert-Select: it checks for the
      very row it inserted, and every query between the insert and the
      select is a kept candidate, never a delete of that row nor a create
      of the table. */
  lemma {:induction false} GeneratedInsertSelectScript(
    table: Table, rows: seq<Row>, rowIndex: nat, candidates: seq<Query>, condition: Predicate, test: Tester)
    requires rowIndex < |rows|
    ensures var row := rows[rowIndex];
      var p := InsertSelect(Insert(table.name, rows), rowIndex,
                            InsertSelectFillers(candidates, table, row, test),
                            Select(table.name, condition));
      var s := Interactions(p);
      && s[|s| - 1].assertion.check == RowInLastResult(row)
      && forall k | 2 <= k < |s| - 2 ::
           && s[k].QueryStep?
           && s[k].query in candidates
           && SoundInsertSelectFiller(s[k].query, table, row, test)
  {
    var row := rows[rowIndex];
    var fillers := InsertSelectFillers(candidates, table, row, test);
    var p := InsertSelect(Insert(table.name, rows), rowIndex, fillers, Select(table.name, condition));
    var s := Interactions(p);
    InsertSelectLayout(p);
    forall k | 2 <= k < |s| - 2
      ensures s[k].QueryStep? && s[k].query in candidates && SoundInsertSelectFiller(s[k].query, table, row, test)
    {
      assert s[(k - 2) + 2] == QueryStep(fillers[k - 2]);
      InsertSelectFillersExact(candidates, table, row, test, fillers[k - 2]);
    }
  }

  /** The compiled script of a generated Double-Create-Failure creates the
      table at exactly two places: right after the assumption and right
      before the assertion. */
  lemma {:induction false} GeneratedDoubleCreateScript(table: Table, candidates: seq<Query>)
    ensures var p := DoubleCreateFailure(Create(table), DoubleCreateFillers(candidates, table));
      var s := Interactions(p);
      forall k | 0 <= k < |s| ::
        (s[k].QueryStep? && s[k].query.CreateQuery? && s[k].query.create.table.name == table.name)
        <==> (k == 1 || k == |s| - 2)
  {
    var fillers := DoubleCreateFillers(candidates, table);
    var p := DoubleCreateFailure(Create(table), fillers);
    var s := Interactions(p);
    DoubleCreateLayout(p);
    forall k | 2 <= k < |s| - 2
      ensures !(s[k].QueryStep? && s[k].query.CreateQuery? && s[k].query.create.table.name == table.name)
    {
      assert s[(k - 2) + 2] == QueryStep(fillers[k - 2]);
      DoubleCreateFillersExact(candidates, table, fillers[k - 2]);
    }
  }

  /** Worked example: three rows inserted into `t`, the second selected;
      a candidate that deletes from `t` with a predicate matching that row
      is never among the fillers, while a select on `t` is kept. */
  lemma MatchingDeleteDroppedExample(table: Table, rows: seq<Row>, doomed: Predicate, other: Select, test: Tester)
    requires table.name == "t" && |rows| == 3 && test(doomed, rows[1], table)
    ensures var candidates := [DeleteQuery(Delete("t", doomed)), SelectQuery(other)];
      InsertSelectFillers(candidates, table, rows[1], test) == [SelectQuery(other)]
  {
    var candidates := [DeleteQuery(Delete("t", doomed)), SelectQuery(other)];
    var keep := (q: Query) => SoundInsertSelectFiller(q, table, rows[1], test);
    assert !keep(candidates[0]) && keep(candidates[1]);
    assert candidates[..1] == [candidates[0]] && [candidates[0]][..0] == [];
    assert Filter([candidates[0]], keep) == [];
    assert Filter(candidates, keep) == Filter(candidates[..1], keep) + [candidates[1]];
  }
}
