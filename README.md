# Property layer of the limbo database simulator

This project models the property layer of limbo's deterministic simulator
(`simulator/generation/property.rs`). The simulator tests the database
engine by running generated scripts against it. The layer has four parts:

- **Properties.** A `Property` is an executable specification stored as
  plain data. There are two kinds. *Insert-Select* says that an inserted
  row comes back from a later SELECT that matches it. *Double-Create-Failure*
  says that creating a table twice fails.
- **The compiler.** `Interactions` turns a property into a script: one
  assumption, then the queries, then one assertion.
- **The checks.** The source builds the assumptions and assertions as
  closures. Here they are a `Check` datatype with an explicit
  `Eval(check, stack, env)`.
- **Generation.** Two generators build properties. While doing so they drop
  filler queries that could falsify the property. The budget arithmetic
  (`RemainingBudget`, `Weights`) steers the choice between the two kinds.

Modules, one per component:

| file | module | contents |
|---|---|---|
| `sequences.dfy` | `Sequences` | `Any` (an iterator's `any`), substring search `Contains`, and `Filter`, the keep-or-skip loop, with its lemmas |
| `model.dfy` | `Model`, `Environment` | values, rows, tables, predicates, queries, result sets; the environment's tables and options; the interaction counters |
| `plan.dfy` | `Plan` | `Check`, `Assertion`, `Interaction`, `Verdict`, `Eval` |
| `property.dfy` | `Properties` | `Property`, `Name`, `Interactions` and the lemmas about compiled scripts |
| `budget.dfy` | `Budget` | `RemainingBudget` and the dispatcher weights, over `real` |
| `generation.dfy` | `Generation` | the two generators as methods with loops, proved against `Filter`; the soundness lemmas |

Modelling choices:

- **Randomness becomes input.** Each random choice is a parameter: the
  picked table's index, the generated rows, the selected row's index, the
  candidate fillers produced by the query provider, and the SELECT's
  predicate.
- **Predicate meaning is a parameter.** What a predicate means is a `Tester`
  parameter, standing for the predicate's `test` method.
- **Panics become preconditions.** In the source these are:
  - the `assert!` on a non-empty insert;
  - indexing the rows with `row_index`;
  - `stack.last().unwrap()`;
  - picking from an empty table list.
- **The filler loops are methods.** Each `for` loop with `continue` is a
  Dafny method with the same loop. It is proved equal to `Filter` over the
  candidates; the properties of the fillers are proved about `Filter`.

The filters (simulator/generation/property.rs:225-243 and 278-291) drop
only Deletes and Creates, so a filler may itself be an Insert or a Select.
The model therefore does not claim that a compiled Insert-Select script
holds exactly one Insert and one Select; it proves the positions:

- exactly one assumption, first;
- exactly one assertion, last;
- the Insert at position 1;
- the Select just before the assertion;
- the kept fillers in between, in order.

## Model

| member | source | states |
|---|---|---|
| `Sequences.Any` | simulator/generation/property.rs:114 | the scan is true exactly when some element satisfies the test (the `iter().any` used on tables and on returned rows) |
| `Sequences.Contains` | simulator/generation/property.rs:153 | substring search is true exactly when the needle occurs at some position of the text |
| `Sequences.Filter` | simulator/generation/property.rs:223-245 | the kept fillers are never more than the candidates |
| `Sequences.FilterEmbeds` | simulator/generation/property.rs:223-245 | the kept fillers form an order-preserving subsequence of the candidates, with a witness index map that is strictly increasing |
| `Sequences.FilterMembership` | simulator/generation/property.rs:278-291 | a query is kept exactly when it is a candidate and passes the soundness test |
| `Sequences.FilterCount` | simulator/generation/property.rs:223-245 | a sound candidate is kept as often as it occurs and an unsound one never, so dropped candidates are not replaced |
| `Sequences.FilterDropsOnlyRejected` | simulator/generation/property.rs:278-291 | with no unsound candidate the fillers are the candidates unchanged; with one, there are strictly fewer fillers than candidates |
| `Plan.MessageTextDeterminesTable` | simulator/generation/property.rs:96-109 | the table-exists text and the row-not-found text each determine the table they name: equal texts of the same kind mean the same table |
| `Plan.Eval` | simulator/generation/property.rs:95-156 | table-exists holds iff some table has the name; table-absent iff none does; row-in-last-result holds iff the last success has a row equal to the target, and on an error gives an internal error carrying the error text; already-exists is false on a success and, on an error, holds iff the text contains `Table <name> already exists` |
| `Plan.AssumptionIgnoresStack` | simulator/generation/property.rs:99-101 | an assumption gives the same verdict on any two result stacks |
| `Plan.AssertionReadsOnlyTop` | simulator/generation/property.rs:111-117 | an assertion's verdict depends only on the top result set, never on the environment or older results |
| `Plan.AlreadyExistsFoundAnywhere` | simulator/generation/property.rs:153 | the already-exists assertion holds whenever the error text contains the message, with any text before or after it |
| `Plan.AlreadyExistsRejectsOtherTable` | simulator/generation/property.rs:153 | the already-exists assertion fails on the error about another table whose name has the same length |
| `Plan.AlreadyExistsExample` | simulator/generation/property.rs:149-155 | for table `t`: holds on `Table t already exists`, fails on `Table u already exists` and on any success |
| `Properties.NameIdentifiesKind` | simulator/generation/property.rs:68-73 | two properties have the same name exactly when they are of the same kind |
| `Properties.Interactions` | simulator/generation/property.rs:77-168 | the script has `|queries| + 4` steps; the only assumption is at position 0 and the only assertion is last; the fillers stand at positions 2 onward in their stored order |
| `Properties.InsertSelectLayout` | simulator/generation/property.rs:86-127 | Insert-Select: assume the insert's table exists (with the message naming that table), insert at 1, select just before the assertion, and the assertion looks for exactly `values[rowIndex]` (with the row-not-found message on that row and table) |
| `Properties.DoubleCreateLayout` | simulator/generation/property.rs:129-165 | Double-Create-Failure: assume the table is absent, the same create at position 1 and just before the assertion, and the assertion checks for the already-exists error on the table's name; each step carries its own fixed message |
| `Properties.InsertSelectVerdicts` | simulator/generation/property.rs:94-118 | the compiled Insert-Select assumption holds iff a table has the insert's name; on a success its assertion holds iff a returned row equals the selected row, and an error is an internal error |
| `Properties.DoubleCreateVerdicts` | simulator/generation/property.rs:130-156 | the compiled Double-Create-Failure assumption holds iff no table has the name; its assertion is false on a success and on an error is the substring test |
| `Properties.ScriptDeterminesProperty` | simulator/generation/property.rs:74-168 | equal scripts come from properties of the same kind with the same fillers; for Double-Create-Failure they are the same property; for Insert-Select they have the same insert, select and selected row |
| `Properties.EqualRowsShareScript` | simulator/generation/property.rs:91-92 | choosing either of two equal rows gives the same script, so the script does not determine `rowIndex` |
| `Properties.DoubleCreateExample` | simulator/generation/property.rs:158-165 | table `t` with no fillers compiles to four steps: the identical create twice, then the already-exists check on `t` |
| `Budget.Quota` | simulator/generation/property.rs:178-180 | the quota is the least non-negative value at or above `target - observed`: zero or that difference |
| `Budget.RemainingBudget` | simulator/generation/property.rs:177-193 | each of read, write and create is non-negative; it equals `max_interactions * percent / 100 - observed` when that is positive, and zero otherwise |
| `Budget.RemainingShrinksAsStatsGrow` | simulator/generation/property.rs:177-193 | higher counters never give a larger remaining budget in any category |
| `Budget.RemainingAtMostTarget` | simulator/generation/property.rs:177-193 | with non-negative shares, the remaining budget never exceeds the target, and with zero counters it equals the target |
| `Budget.InsertSelectWeight` | simulator/generation/property.rs:308 | the Insert-Select weight is the smaller of the read and write budgets |
| `Budget.DoubleCreateFailureWeight` | simulator/generation/property.rs:312 | the Double-Create-Failure weight is half the create budget |
| `Budget.Weights` | simulator/generation/property.rs:304-315 | the dispatcher's list has the Insert-Select entry then the Double-Create-Failure entry; every weight is non-negative for all options and counters; the first weight is the smaller of the remaining reads and writes, the second is half the remaining creates |
| `Budget.WeightZeroWhenSpent` | simulator/generation/property.rs:304-315 | Insert-Select has zero weight iff reads or writes are used up; Double-Create-Failure iff creates are |
| `Budget.EvenSplitExample` | simulator/generation/property.rs:177-193 | 10 interactions at 50/50/0 with zero counters leave 5 reads, 5 writes, 0 creates, giving weights 5 and 0 |
| `Generation.PropertyInsertSelect` | simulator/generation/property.rs:195-259 | the generated property inserts the rows into the picked table, selects `rows[rowIndex]` with the provider's predicate, and keeps exactly the sound fillers in order; it compiles without panicking |
| `Generation.DoubleCreateFailureOn` | simulator/generation/property.rs:268-296 | the property creates the given table and keeps exactly the candidates that do not create a table of that name, in order |
| `Generation.PropertyDoubleCreateFailure` | simulator/generation/property.rs:261-297 | the generator as written: the table is picked from the environment and the fillers are filtered as above |
| `Generation.PropertyDoubleCreateFailureFresh` | simulator/generation/property.rs:261-271 | corrected generator: built around a table the environment lacks, its assumption holds on every result stack |
| `Generation.PickedTablePassesInsertSelectAssumption` | simulator/generation/property.rs:200-215 | an Insert-Select on a picked table passes its assumption in the environment it came from |
| `Generation.PickedTableFailsDoubleCreateAssumption` | simulator/generation/property.rs:266-271 | a Double-Create-Failure on a picked table fails its assumption in the environment it came from, for every pick and every set of candidates |
| `Generation.FreshTablePassesDoubleCreateAssumption` | simulator/generation/property.rs:132-137 | on a table no environment table is named after, the assumption holds and the assertion checks for that name |
| `Generation.InsertSelectFillersExact` | simulator/generation/property.rs:223-245 | a candidate is kept iff it is neither a delete on the table whose predicate accepts the selected row, nor a create of a same-named table |
| `Generation.DoubleCreateFillersExact` | simulator/generation/property.rs:278-291 | a candidate is kept iff it is not a create of a same-named table |
| `Generation.GeneratedInsertSelectScript` | simulator/generation/property.rs:223-245 | in a generated Insert-Select script the assertion targets the inserted row, and every query between insert and select is a sound candidate |
| `Generation.GeneratedDoubleCreateScript` | simulator/generation/property.rs:278-291 | a generated Double-Create-Failure script creates the table at exactly two positions: 1 and just before the assertion |
| `Generation.MatchingDeleteDroppedExample` | simulator/generation/property.rs:226-234 | with three rows, row 1 selected, a delete on `t` whose predicate matches that row is dropped and a select is kept |

## Left out

- Random number generation is not modelled. Nor are the helpers `pick`, `pick_index`, `frequency`, `Query::arbitrary_from`, `Predicate::arbitrary_from` and `Vec::<Value>::arbitrary_from`, whose code is not part of this model. Their outputs are parameters. The draws of 1 to 5 rows and of 0 to 2 filler attempts appear as preconditions.
- The weighted draw itself (`frequency`) is not modelled, including what happens when every weight is zero. The model stops at the (weight, generator) list.
- Floating point is not modelled: rounding, NaN in `f64::max`/`f64::min`, and the `as f64` conversions. The budget is computed over `real`.
- Row equality over `Float` values is equality of reals. The source compares rows with the derived `==` on `f64`, where NaN differs from itself, so a row holding a NaN is never found by the Insert-Select assertion there; in the model such a row is found.
- Serialization of `Property` is not modelled. `Properties.ScriptDeterminesProperty` and `Properties.EqualRowsShareScript` state what a script retains of a property.
- The Insert-Select assertion message does not include the row. The source prints the row's values there, using the value type's display format; that format is not part of this model. The other three messages are modelled as written.
- Error text is a plain string, standing for the engine error's `to_string()`. The engine's own error formatting is not part of this model.
- The value and table types are simplified. `Value` has five cases and columns carry a name and a type; the simulator's table model is not part of this model; rows matter here only through their equality, with the NaN caveat above.
- The simulator environment is modelled only as its table list and workload options. The driver is not modelled: it executes the script, keeps the result stack and the counters, and updates the table list on CREATE. That is I/O against the engine.
- Rows are not checked against the table's columns. Nor is the predicate provider's promise that the SELECT predicate accepts the selected row. The source checks neither.
- `Generation.PropertyInsertSelect`: its precondition requires `|candidates| < 3`, since the source draws at most two filler attempts. The filter itself is proved for any number of candidates, in `Sequences` and in `Generation.InsertSelectFillersExact`.

## Findings

| source | as written | input that shows it | evidently intended | confidence | as-written member | corrected member |
|---|---|---|---|---|---|---|
| simulator/generation/property.rs:267-271 | Double-Create-Failure picks the table to create from `env.tables`, i.e. a table that already exists; its assumption (lines 135-137) then demands that no table of that name exists | any environment with a table, any pick, any fillers: the assumption evaluates to false, so the property is always discarded and the double-create scenario never runs | create a new table whose name the environment does not have, so the assumption holds and the second create is the one expected to fail | medium (not executed) | `Generation.PickedTableFailsDoubleCreateAssumption` | `Generation.PropertyDoubleCreateFailureFresh` |
