/** Properties: executable specifications about the database, stored as
    plain data and compiled on demand into an interaction script
    (assumption, queries, assertion). */
module Properties {
  import opened Model
  import opened Environment
  import opened Plan

  datatype Property =
    /** A row inserted into a table is returned by a later SELECT whose
        WHERE clause matches it, whatever fillers run in between. */
    | InsertSelect(insert: Insert, rowIndex: nat, queries: seq<Query>, select: Select)
    /** Creating a table that already exists fails. */
    | DoubleCreateFailure(create: Create, queries: seq<Query>)

  function Name(p: Property): string
  {
    match p
    case InsertSelect(_, _, _, _) => "Insert-Select"
    case DoubleCreateFailure(_, _) => "Double-Create-Failure"
  }

  /** The name tells the two kinds of property apart. */
  lemma NameIdentifiesKind(p: Property, q: Property)
    ensures Name(p) == Name(q) <==> p.InsertSelect? == q.InsertSelect?
  {
    assert |Name(p)| == if p.InsertSelect? then 13 else 21;
    assert |Name(q)| == if q.InsertSelect? then 13 else 21;
  }

  /** What compiling a property demands: an Insert-Select names a row of
      a non-empty insert. */
  predicate WellFormed(p: Property)
  {
    p.InsertSelect? ==> 0 < |p.insert.values| && p.rowIndex < |p.insert.values|
  }

  /** The common shape of a compiled script: an assumption, the first
      query, the fillers, the last query and an assertion. */
  function Script(assumption: Assertion, first: Query, fillers: seq<Query>, last: Query, assertion: Assertion)
    : (s: seq<Interaction>)
    ensures |s| == |fillers| + 4
    ensures s[0] == AssumptionStep(assumption) && s[1] == QueryStep(first)
    ensures s[|s| - 2] == QueryStep(last) && s[|s| - 1] == AssertionStep(assertion)
    ensures forall k | 0 <= k < |fillers| :: s[k + 2] == QueryStep(fillers[k])
  {
    [AssumptionStep(assumption), QueryStep(first)]
      + seq(|fillers|, k requires 0 <= k < |fillers| => QueryStep(fillers[k]))
      + [QueryStep(last), AssertionStep(assertion)]
  }

  /** Compiles a property into its script: one assumption first, one
      assertion last, and queries in between, the fillers starting at
      position 2 in their stored order. */
  function Interactions(p: Property): (s: seq<Interaction>)
    requires WellFormed(p)
    ensures |s| == |p.queries| + 4
    ensures forall k | 0 <= k < |s| :: s[k].AssumptionStep? <==> k == 0
    ensures forall k | 0 <= k < |s| :: s[k].AssertionStep? <==> k == |s| - 1
    ensures forall k | 0 <= k < |p.queries| :: s[k + 2] == QueryStep(p.queries[k])
  {
    var s := match p
      case InsertSelect(insert, rowIndex, queries, select) =>
        var row := insert.values[rowIndex];
        Script(
          Assertion(TableExistsMessage(insert.table), TableExists(insert.table)),
          InsertQuery(insert),
          queries,
          SelectQuery(select),
          Assertion(RowNotFoundMessage(row, insert.table), RowInLastResult(row)))
      case DoubleCreateFailure(create, queries) =>
        Script(
          Assertion(DoubleCreateAssumptionMessage, TableAbsent(create.table.name)),
          CreateQuery(create),
          queries,
          CreateQuery(create),
          Assertion(DoubleCreateAssertionMessage, LastErrorAlreadyExists(create.table.name)));
    assert forall k | 2 <= k < |s| - 2 :: s[k] == QueryStep(p.queries[k - 2]);
    s
  }

  /** Insert-Select: assume the table exists, insert, fillers, select, and
      assert that the inserted row at `rowIndex` comes back. */
  lemma InsertSelectLayout(p: Property)
    requires p.InsertSelect? && WellFormed(p)
    ensures var s := Interactions(p);
      && s[0].assertion == Assertion(TableExistsMessage(p.insert.table), TableExists(p.insert.table))
      && s[1] == QueryStep(InsertQuery(p.insert))
      && s[|s| - 2] == QueryStep(SelectQuery(p.select))
      && s[|s| - 1].assertion == Assertion(
           RowNotFoundMessage(p.insert.values[p.rowIndex], p.insert.table),
           RowInLastResult(p.insert.values[p.rowIndex]))
  {
  }

  /** Double-Create-Failure: assume the table is absent, create it, fillers,
      create it again with the very same schema, and assert the failure. */
  lemma DoubleCreateLayout(p: Property)
    requires p.DoubleCreateFailure?
    ensures var s := Interactions(p);
      && s[0].assertion == Assertion(DoubleCreateAssumptionMessage, TableAbsent(p.create.table.name))
      && s[1] == QueryStep(CreateQuery(p.create))
      && s[|s| - 2] == s[1]
      && s[|s| - 1].assertion
         == Assertion(DoubleCreateAssertionMessage, LastErrorAlreadyExists(p.create.table.name))
  {
  }

  /** The Insert-Select checks, run: the assumption asks the environment
      for the table; the assertion passes exactly when the last result is a
      success holding the selected row, and turns an engine error into an
      internal error instead of a plain failure. */
  lemma {:induction false} InsertSelectVerdicts(p: Property, stack: seq<ResultSet>, env: Env)
    requires p.InsertSelect? && WellFormed(p) && |stack| > 0
    ensures var s := Interactions(p);
      var row := p.insert.values[p.rowIndex];
      var top := stack[|stack| - 1];
      && Eval(s[0].assertion.check, stack, env)
         == Ok(exists i | 0 <= i < |env.tables| :: env.tables[i].name == p.insert.table)
      && (top.Rows? ==> Eval(s[|s| - 1].assertion.check, stack, env)
                        == Ok(exists i | 0 <= i < |top.rows| :: top.rows[i] == row))
      && (top.Failed? ==> Eval(s[|s| - 1].assertion.check, stack, env)
                          == Err(InternalError(top.message)))
  {
    InsertSelectLayout(p);
  }

  /** The Double-Create-Failure checks, run: the assumption holds when no
      table carries the name; the assertion never holds on a success and,
      on an error, holds exactly when the text mentions that the table
      already exists. */
  lemma {:induction false} DoubleCreateVerdicts(p: Property, stack: seq<ResultSet>, env: Env)
    requires p.DoubleCreateFailure? && |stack| > 0
    ensures var s := Interactions(p);
      var name := p.create.table.name;
      var top := stack[|stack| - 1];
      && Eval(s[0].assertion.check, stack, env)
         == Ok(forall i | 0 <= i < |env.tables| :: env.tables[i].name != name)
      && (top.Rows? ==> Eval(s[|s| - 1].assertion.check, stack, env) == Ok(false))
      && (top.Failed? ==> Eval(s[|s| - 1].assertion.check, stack, env)
                          == Ok(Sequences.Contains(top.message, AlreadyExistsMessage(name))))
  {
    DoubleCreateLayout(p);
  }

  /** The script carries all of a property's data except which of two
      equal rows was selected: equal scripts come from the same kind of
      property with the same insert, fillers and select (or create), and
      the same selected row. */
  lemma {:induction false} ScriptDeterminesProperty(p: Property, q: Property)
    requires WellFormed(p) && WellFormed(q)
    requires Interactions(p) == Interactions(q)
    ensures p.InsertSelect? <==> q.InsertSelect?
    ensures p.queries == q.queries
    ensures p.DoubleCreateFailure? ==> p == q
    ensures p.InsertSelect? ==>
      && p.insert == q.insert && p.select == q.select
      && p.insert.values[p.rowIndex] == q.insert.values[q.rowIndex]
  {
    var s := Interactions(p);
    assert |p.queries| == |q.queries|;
    forall k | 0 <= k < |p.queries| ensures p.queries[k] == q.queries[k] {
      assert s[k + 2] == QueryStep(p.queries[k]);
    }
    if p.InsertSelect? {
      InsertSelectLayout(p);
      if q.InsertSelect? {
        InsertSelectLayout(q);
      } else {
        DoubleCreateLayout(q);
      }
    } else {
      DoubleCreateLayout(p);
      if q.InsertSelect? {
        InsertSelectLayout(q);
      } else {
        DoubleCreateLayout(q);
      }
    }
  }

  /** Conversely, selecting either of two equal rows compiles to the same
      script. */
  lemma EqualRowsShareScript(p: Property, j: nat)
    requires p.InsertSelect? && WellFormed(p)
    requires j < |p.insert.values| && p.insert.values[j] == p.insert.values[p.rowIndex]
    ensures WellFormed(p.(rowIndex := j)) && Interactions(p.(rowIndex := j)) == Interactions(p)
  {
  }

  /** Worked example: table `t` created twice with no fillers compiles to
      assumption, create, the same create, and the "already exists" check
      on table `t` (whose verdicts `AlreadyExistsExample` works out). */
  lemma DoubleCreateExample(schema: seq<Column>)
    ensures var create := Create(Table("t", schema));
      var s := Interactions(DoubleCreateFailure(create, []));
      && |s| == 4
      && s[1] == s[2] == QueryStep(CreateQuery(create))
      && s[3].assertion.check == LastErrorAlreadyExists("t")
  {
    var create := Create(Table("t", schema));
    DoubleCreateLayout(DoubleCreateFailure(create, []));
  }
}
