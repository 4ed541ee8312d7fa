/** The executable side of a property: the checks that assumptions and
    assertions run against the result-set stack and the environment, and
    the interactions a compiled property is made of. Each check holds only
    the data its original closure captured. */
module Plan {
  import opened Model
  import opened Environment
  import opened Sequences

  datatype LimboError = InternalError(message: string)

  /** What evaluating a check yields: a truth value, or an error that
      marks a fault of the simulation rather than of the engine. */
  datatype Verdict = Ok(holds: bool) | Err(error: LimboError)

  datatype Check =
    /** Some table of the environment carries this name. */
    | TableExists(tableName: string)
    /** No table of the environment carries this name. */
    | TableAbsent(tableName: string)
    /** The last result set is a success that contains this row. */
    | RowInLastResult(row: Row)
    /** The last result set is an error saying the table already exists. */
    | LastErrorAlreadyExists(tableName: string)

  /** The message reported when a check fails, with the data it shows. */
  datatype Message =
    | TableExistsMessage(tableName: string)
    | RowNotFoundMessage(row: Row, tableName: string)
    | DoubleCreateAssumptionMessage
    | DoubleCreateAssertionMessage

  /** The text of a message. The row's values are not rendered. */
  function MessageText(m: Message): string
  {
    match m
    case TableExistsMessage(name) => "table " + name + " exists"
    case RowNotFoundMessage(_, name) => "row not found in table " + name
    case DoubleCreateAssumptionMessage =>
      "Double-Create-Failure should not be called on an existing table"
    case DoubleCreateAssertionMessage =>
      "creating two tables with the name should result in a failure for the second query"
  }

  /** An Insert-Select message determines the table it is about: two
      messages of the same kind with the same text name the same table. */
  lemma {:induction false} MessageTextDeterminesTable(m1: Message, m2: Message)
    requires (m1.TableExistsMessage? && m2.TableExistsMessage?)
          || (m1.RowNotFoundMessage? && m2.RowNotFoundMessage?)
    requires MessageText(m1) == MessageText(m2)
    ensures m1.tableName == m2.tableName
  {
    var a, b := m1.tableName, m2.tableName;
    var text := MessageText(m1);
    if m1.TableExistsMessage? {
      assert |a| == |b|;
      assert text[6..6 + |a|] == a && MessageText(m2)[6..6 + |b|] == b;
    } else {
      assert |a| == |b|;
      assert text[23..] == a && MessageText(m2)[23..] == b;
    }
  }

  datatype Assertion = Assertion(message: Message, check: Check)

  datatype Interaction =
    | QueryStep(query: Query)
    | AssumptionStep(assertion: Assertion)
    | AssertionStep(assertion: Assertion)

  /** The two assertions read the top of the stack; the assumptions read
      only the environment. */
  predicate ReadsStack(c: Check)
  {
    c.RowInLastResult? || c.LastErrorAlreadyExists?
  }

  /** The text the engine's error carries when a table is created twice. */
  function AlreadyExistsMessage(tableName: string): string
  {
    "Table " + tableName + " already exists"
  }

  /** Runs a check. A check that reads the stack needs a non-empty one. */
  function Eval(c: Check, stack: seq<ResultSet>, env: Env): (v: Verdict)
    requires ReadsStack(c) ==> |stack| > 0
    ensures c.TableExists? ==>
      v == Ok(exists i | 0 <= i < |env.tables| :: env.tables[i].name == c.tableName)
    ensures c.TableAbsent? ==>
      v == Ok(forall i | 0 <= i < |env.tables| :: env.tables[i].name != c.tableName)
    ensures c.RowInLastResult? && stack[|stack| - 1].Rows? ==>
      var rows := stack[|stack| - 1].rows;
      v == Ok(exists i | 0 <= i < |rows| :: rows[i] == c.row)
    ensures c.RowInLastResult? && stack[|stack| - 1].Failed? ==>
      v == Err(InternalError(stack[|stack| - 1].message))
    ensures c.LastErrorAlreadyExists? && stack[|stack| - 1].Rows? ==>
      v == Ok(false)
    ensures c.LastErrorAlreadyExists? && stack[|stack| - 1].Failed? ==>
      var message := stack[|stack| - 1].message;
      v == Ok(exists i: nat :: OccursAt(message, AlreadyExistsMessage(c.tableName), i))
  {
    match c
    case TableExists(name) =>
      Ok(Any(env.tables, (t: Table) => t.name == name))
    case TableAbsent(name) =>
      Ok(!Any(env.tables, (t: Table) => t.name == name))
    case RowInLastResult(row) =>
      (match stack[|stack| - 1]
       case Rows(rows) => Ok(Any(rows, (r: Row) => r == row))
       case Failed(message) => Err(InternalError(message)))
    case LastErrorAlreadyExists(name) =>
      (match stack[|stack| - 1]
       case Rows(_) => Ok(false)
       case Failed(message) => Ok(Contains(message, AlreadyExistsMessage(name))))
  }

  /** Assumptions never look at the stack: any two stacks give the same
      verdict. */
  lemma AssumptionIgnoresStack(c: Check, stack1: seq<ResultSet>, stack2: seq<ResultSet>, env: Env)
    requires !ReadsStack(c)
    ensures Eval(c, stack1, env) == Eval(c, stack2, env)
  {
  }

  /** Assertions look only at the top of the stack and never at the
      environment. */
  lemma AssertionReadsOnlyTop(c: Check, stack1: seq<ResultSet>, env1: Env, stack2: seq<ResultSet>, env2: Env)
    requires ReadsStack(c) && |stack1| > 0 && |stack2| > 0
    requires stack1[|stack1| - 1] == stack2[|stack2| - 1]
    ensures Eval(c, stack1, env1) == Eval(c, stack2, env2)
  {
  }

  /** The "already exists" assertion accepts the engine's message wherever
      it stands in the error text. */
  lemma {:induction false} AlreadyExistsFoundAnywhere(name: string, prefix: string, suffix: string, stack: seq<ResultSet>, env: Env)
    requires |stack| > 0 && stack[|stack| - 1] == Failed(prefix + AlreadyExistsMessage(name) + suffix)
    ensures Eval(LastErrorAlreadyExists(name), stack, env) == Ok(true)
  {
    var message := stack[|stack| - 1].message;
    var needle := AlreadyExistsMessage(name);
    assert message[|prefix|..|prefix| + |needle|] == needle;
    assert OccursAt(message, needle, |prefix|);
  }

  /** The "already exists" assertion rejects the message about another
      table whose name has the same length. */
  lemma {:induction false} AlreadyExistsRejectsOtherTable(name: string, other: string, stack: seq<ResultSet>, env: Env)
    requires |other| == |name| && other != name
    requires |stack| > 0 && stack[|stack| - 1] == Failed(AlreadyExistsMessage(other))
    ensures Eval(LastErrorAlreadyExists(name), stack, env) == Ok(false)
  {
    var message := stack[|stack| - 1].message;
    var needle := AlreadyExistsMessage(name);
    var j :| 0 <= j < |name| && other[j] != name[j];
    assert message[6 + j] == other[j] && needle[6 + j] == name[j];
    forall i: nat ensures !OccursAt(message, needle, i) {
      if i == 0 && |needle| <= |message| {
        assert message[..|needle|][6 + j] != needle[6 + j];
      }
    }
  }

  /** The "already exists" check for table `t` on concrete outcomes: it
      holds on the engine's error and fails on a success or on the error
      about another table. */
  lemma {:induction false} AlreadyExistsExample(env: Env, earlier: seq<ResultSet>, top: ResultSet)
    ensures var verdict := Eval(LastErrorAlreadyExists("t"), earlier + [top], env);
      && (top == Failed("Table t already exists") ==> verdict == Ok(true))
      && (top == Failed("Table u already exists") ==> verdict == Ok(false))
      && (top.Rows? ==> verdict == Ok(false))
  {
    var stack := earlier + [top];
    if top == Failed("Table t already exists") {
      assert top.message == "" + AlreadyExistsMessage("t") + "";
      AlreadyExistsFoundAnywhere("t", "", "", stack, env);
    } else if top == Failed("Table u already exists") {
      assert top.message == AlreadyExistsMessage("u");
      AlreadyExistsRejectsOtherTable("t", "u", stack, env);
    }
  }
}
