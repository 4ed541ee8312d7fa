/** The simulator's data model as the property layer sees it: values, rows,
    table schemas, queries, predicates and the outcome of running a query.
    These shapes belong to the simulator's query and table model; only the
    parts the property layer reads are kept. */
module Model {

  /** One column value. Only equality between values matters here. */
  datatype Value =
    | Null
    | Integer(i: int)
    | Float(f: real)
    | Text(t: string)
    | Blob(b: seq<bv8>)

  /** A row is an ordered sequence of column values; two rows are equal
      exactly when they are equal component by component. */
  type Row = seq<Value>

  datatype ColumnType = IntegerType | FloatType | TextType | BlobType

  datatype Column = Column(name: string, columnType: ColumnType)

  datatype Table = Table(name: string, columns: seq<Column>)

  /** A WHERE clause. Its meaning is given by a `Tester`, supplied from
      outside: the property layer never looks inside a predicate. */
  datatype Predicate = Predicate(sql: string)

  /** `test(p, row, table)`: does predicate `p` accept `row` of `table`? */
  type Tester = (Predicate, Row, Table) -> bool

  datatype Insert = Insert(table: string, values: seq<Row>)

  datatype Select = Select(table: string, condition: Predicate)

  datatype Create = Create(table: Table)

  datatype Delete = Delete(table: string, condition: Predicate)

  datatype Query =
    | InsertQuery(insert: Insert)
    | SelectQuery(select: Select)
    | CreateQuery(create: Create)
    | DeleteQuery(delete: Delete)

  /** The outcome of one executed query: the rows it returned, or the
      text of the error the engine raised. */
  datatype ResultSet = Rows(rows: seq<Row>) | Failed(message: string)
}

/** The parts of the simulator environment the property layer observes. */
module Environment {
  import opened Model

  /** Workload options: the interaction budget and the share of reads,
      writes and creates, in percent. */
  datatype SimulatorOpts = SimulatorOpts(
    maxInteractions: nat,
    readPercent: real,
    writePercent: real,
    createPercent: real)

  datatype Env = Env(tables: seq<Table>, opts: SimulatorOpts)

  /** Running counters kept by the driver across a session. */
  datatype InteractionStats = InteractionStats(readCount: nat, writeCount: nat, createCount: nat)
}
