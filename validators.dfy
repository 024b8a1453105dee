/** The three per-row checks of the uploader and the way it combines them:
    required columns first, then their types, then the status value. Each check
    returns the error it found, or `None` where the source returns `null`. */
module Validators {
  import opened Wrappers
  import opened Json

  /** A required column of a row. */
  datatype Column = Id | Name | Status {

    /** The property name of the column. */
    function Key(): (k: string)
      ensures !IsIndexKey(k)
    {
      match this
      case Id => "id"
      case Name => "name"
      case Status => "status"
    }

    /** The position of the column in the order the checks visit them. */
    function Rank(): (r: nat)
      ensures r < |RequiredColumns| && RequiredColumns[r] == this
    {
      match this
      case Id => 0
      case Name => 1
      case Status => 2
    }
  }

  /** The required columns, in the order they are checked. */
  const RequiredColumns: seq<Column> := [Id, Name, Status]

  /** The allowed values of the status column. */
  const ValidStatuses: seq<string> := ["active", "inactive", "pending"]

  /** What a check reports. `InvalidStatus` carries the value read from the
      row, which is interpolated into the message. */
  datatype RowError =
    | MissingColumn(column: Column)
    | InvalidType(column: Column)
    | InvalidStatus(status: JsAny)

  /** The early-return `for ... of` search of hasRequiredColumns, from
      position `from` of RequiredColumns on: the first column the row does not
      own, if any. */
  function FirstMissingFrom(row: JsonValue, from: nat): (r: Option<Column>)
    requires row != Null && from <= |RequiredColumns|
    decreases |RequiredColumns| - from
    ensures r.None? <==> forall c: Column :: c.Rank() >= from ==> HasOwn(row, c.Key())
    ensures r.Some? ==>
      from <= r.value.Rank() && !HasOwn(row, r.value.Key()) &&
      forall c: Column :: from <= c.Rank() < r.value.Rank() ==> HasOwn(row, c.Key())
  {
    if from == |RequiredColumns| then None
    else if !HasOwn(row, RequiredColumns[from].Key()) then Some(RequiredColumns[from])
    else FirstMissingFrom(row, from + 1)
  }

  /** hasRequiredColumns: no error exactly when the row owns all three
      columns; otherwise the first missing column in the order id, name,
      status. */
  function HasRequiredColumns(row: JsonValue): (r: Option<RowError>)
    requires row != Null
    ensures r.None? <==> HasOwn(row, "id") && HasOwn(row, "name") && HasOwn(row, "status")
    ensures r == Some(MissingColumn(Id)) <==> !HasOwn(row, "id")
    ensures r == Some(MissingColumn(Name)) <==> HasOwn(row, "id") && !HasOwn(row, "name")
    ensures r == Some(MissingColumn(Status)) <==>
      HasOwn(row, "id") && HasOwn(row, "name") && !HasOwn(row, "status")
  {
    assert Id.Key() == "id" && Name.Key() == "name" && Status.Key() == "status";
    assert Id.Rank() == 0 && Name.Rank() == 1 && Status.Rank() == 2;
    match FirstMissingFrom(row, 0)
    case None => None
    case Some(c) => Some(MissingColumn(c))
  }

  /** validateColumnTypes: no error exactly when id is a number and name and
      status are strings; otherwise the first column, in the order id, name,
      status, whose `typeof` is wrong. */
  function ValidateColumnTypes(row: JsonValue): (r: Option<RowError>)
    requires row != Null
    ensures r.None? <==>
      TypeOf(Get(row, "id")) == "number" && TypeOf(Get(row, "name")) == "string" &&
      TypeOf(Get(row, "status")) == "string"
    ensures r == Some(InvalidType(Id)) <==> TypeOf(Get(row, "id")) != "number"
    ensures r == Some(InvalidType(Name)) <==>
      TypeOf(Get(row, "id")) == "number" && TypeOf(Get(row, "name")) != "string"
    ensures r == Some(InvalidType(Status)) <==>
      TypeOf(Get(row, "id")) == "number" && TypeOf(Get(row, "name")) == "string" &&
      TypeOf(Get(row, "status")) != "string"
  {
    if TypeOf(Get(row, "id")) != "number" then Some(InvalidType(Id))
    else if TypeOf(Get(row, "name")) != "string" then Some(InvalidType(Name))
    else if TypeOf(Get(row, "status")) != "string" then Some(InvalidType(Status))
    else None
  }

  /** validateStatusType: no error exactly when the status read from the row
      is one of the strings "active", "inactive", "pending" (`includes` compares
      with SameValueZero, so any other value, string or not, is refused). */
  function ValidateStatusType(row: JsonValue): (r: Option<RowError>)
    requires row != Null
    ensures r.None? <==>
      Get(row, "status") in {Defined(Str("active")), Defined(Str("inactive")), Defined(Str("pending"))}
    ensures r.Some? ==> r.value == InvalidStatus(Get(row, "status"))
  {
    var status := Get(row, Status.Key());
    if status.Defined? && status.value.Str? && status.value.s in ValidStatuses then None
    else Some(InvalidStatus(status))
  }

  /** The row schema, stated on the parsed value itself: an object whose id is
      a plain number, whose name is a string and whose status is one of the
      three allowed strings. */
  predicate IsWellFormedRow(row: JsonValue)
  {
    row.Obj? &&
    "id" in row.fields && row.fields["id"].Num? &&
    "name" in row.fields && row.fields["name"].Str? &&
    "status" in row.fields && row.fields["status"].Str? &&
    row.fields["status"].s in {"active", "inactive", "pending"}
  }

  /** `columnError || typeError || statusError`: the one error recorded for a
      row. There is none exactly when the row fits the schema; a missing column
      wins over everything, a type error over a bad status value, and a status
      error is only ever reported for a status that is a string. */
  function RowCheck(row: JsonValue): (r: Option<RowError>)
    requires row != Null
    ensures r.None? <==> IsWellFormedRow(row)
    ensures HasRequiredColumns(row).Some? ==> r == HasRequiredColumns(row)
    ensures HasRequiredColumns(row).None? && ValidateColumnTypes(row).Some? ==> r == ValidateColumnTypes(row)
    ensures HasRequiredColumns(row).None? && ValidateColumnTypes(row).None? ==> r == ValidateStatusType(row)
    ensures r.Some? && r.value.InvalidStatus? ==> r.value.status.Defined? && r.value.status.value.Str?
  {
    var columnError := HasRequiredColumns(row);
    var typeError := ValidateColumnTypes(row);
    var statusError := ValidateStatusType(row);
    if columnError.Some? then columnError
    else if typeError.Some? then typeError
    else statusError
  }

  /** Whether Describe can render an error: the status of a status error must
      be a string. */
  predicate Describable(e: RowError)
  {
    e.InvalidStatus? ==> e.status.Defined? && e.status.value.Str?
  }

  /** The text of a row error, as the validators build it: a fixed lead-in
      naming the check, then the column's key or the status text read. That
      the text determines the error is `DescribeInjective`. */
  function Describe(e: RowError): (r: string)
    requires Describable(e)
    ensures e.MissingColumn? ==> r == "Missing required column: " + e.column.Key()
    ensures e.InvalidType? ==> r == "Invalid type for column: " + e.column.Key()
    ensures e.InvalidStatus? ==> r == "Invalid status value: " + e.status.value.s
  {
    match e
    case MissingColumn(c) => "Missing required column: " + c.Key()
    case InvalidType(c) => "Invalid type for column: " + c.Key()
    case InvalidStatus(v) => "Invalid status value: " + v.value.s
  }

  /** The text of a row error determines the error. */
  lemma DescribeInjective(e1: RowError, e2: RowError)
    requires Describable(e1) && Describable(e2)
    requires Describe(e1) == Describe(e2)
    ensures e1 == e2
  {
    var t1, t2 := Describe(e1), Describe(e2);
    assert t1[0] == t2[0] && t1[8] == t2[8];
    if e1.MissingColumn? || e1.InvalidType? {
      var n := 25;
      assert t1[n..] == e1.column.Key();
      assert t2[n..] == e2.column.Key();
    } else {
      assert t1[22..] == e1.status.value.s;
      assert t2[22..] == e2.status.value.s;
    }
  }
}
