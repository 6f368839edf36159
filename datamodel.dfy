/**
 * The entities of a battery-cycle recording, as the loader hands it over
 * already decoded, and of the flat table the extraction produces.
 *
 * A recording is a sequence of cycles; a cycle is a sequence of operations;
 * an operation carries a type, an ambient temperature, a start time and one
 * or more measurement blocks; a block is a set of named sample columns.
 */
module DataModel {

  /** A measured value (voltage, current, temperature, capacity, ...). The
      extraction only copies such values around, so they stay opaque. */
  type Scalar(==, !new)

  /** The ways a load can fail. */
  datatype LoadError =
    | RaggedBlock           // the kept columns of a block differ in length
    | MissingCapacity       // a discharge block has no `Capacity` field
    | EmptyCapacity         // the `Capacity` field holds no value
    | NoMatchingOperations  // nothing to concatenate: no operation has the target type

  datatype Result<+T> = Ok(value: T) | Err(error: LoadError)

  datatype Option<+T> = None | Some(value: T)

  /** The operation kinds a caller may ask for. */
  datatype Target = Charge | Discharge

  /** The label an operation of this kind carries in the recording. */
  function TargetName(t: Target): string
  {
    match t
    case Charge => "charge"
    case Discharge => "discharge"
  }

  /** One named column of a measurement block: the samples in recording order. */
  datatype Field = Field(name: string, samples: seq<Scalar>)

  /** A measurement block, its fields in declaration order. */
  type Block = seq<Field>

  /** The six time components of an operation's start, as recorded (they may
      carry fractions). */
  datatype Clock = Clock(year: real, month: real, day: real, hour: real, minute: real, second: real)

  datatype Operation = Operation(kind: string, ambientTemperature: Scalar, time: Clock, data: seq<Block>)

  type Cycle = seq<Operation>

  type Document = seq<Cycle>

  /** A start timestamp: the six components, each a whole number. */
  datatype DateTime = DateTime(year: int, month: int, day: int, hour: int, minute: int, second: int)

  /** One cell of the output table. */
  datatype Cell =
    | Sample(value: Scalar)   // a measurement, the capacity or the temperature
    | Counter(id: nat)        // the operation_id column
    | Label(text: string)     // the type column
    | Stamp(at: DateTime)     // the start_time column

  /** A row maps each of its column names to its cell. */
  type Row = map<string, Cell>

  /** A table; a row's index is its position. */
  type Frame = seq<Row>

  const CapacityName := "Capacity"
  const OperationIdName := "operation_id"
  const TemperatureName := "temperature"
  const TypeName := "type"
  const StartTimeName := "start_time"

  /** The four provenance columns attached to every row of an operation. */
  const ProvenanceNames: set<string> := {OperationIdName, TemperatureName, TypeName, StartTimeName}

  /** True when the operation is of the requested kind. */
  predicate Matches(op: Operation, target: Target)
  {
    op.kind == TargetName(target)
  }
}
