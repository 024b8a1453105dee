/** The FileUploader: the gate that accepts a file for reading, and the
    handler that turns the parsed file into the uploader's observable state
    (failure flag, error text, file content, record count). */
module Uploader {
  import opened Wrappers
  import opened Text
  import opened Json
  import opened Validators

  /** The part of a browser File the gate looks at: `file.name`, `file.type`. */
  datatype FileInfo = FileInfo(name: string, mimeType: string)

  /** A key handed to the translation service, with its interpolation
      parameters. */
  datatype Message =
    | ThereWasAProblem
    | UnsupportedFileFormat(supportedExtensions: string)
    | Close
    | InvalidJson
    | ErrorInItem(index: nat, error: string)

  /** A call into the host: an alert dialog, closing the host dialog, or
      starting to read a file. */
  datatype Effect =
    | OpenAlert(title: string, disableClose: bool, message: Option<string>, closeButton: string)
    | CloseHostDialog
    | ReadAsText(file: FileInfo)

  /** What `JSONBig.parse` did with the file's text: it threw, or it returned a value. */
  datatype ParseResult = ParseFailed | Parsed(value: JsonValue)

  /** The four fields the load handler updates. */
  datatype UploadState = UploadState(
    isUploadFailed: bool,
    uploadError: string,
    fileContent: JsonValue,
    totalRecords: JsAny)

  const SupportedFileTypes: seq<string> := ["application/json"]
  const SupportedFileExtensions: seq<string> := ["json"]

  /** The state a new uploader starts in. */
  const InitialState := UploadState(false, "", Arr([]), Defined(Num(0.0)))

  /** The gate of uploadFile: the MIME type is supported and the text after
      the last '.' of the name is a supported extension. That is: the type is
      exactly "application/json", and the name is "json" itself (a name with
      no '.' is compared whole) or ends with ".json", case-sensitively. */
  function Accepts(f: FileInfo): (ok: bool)
    ensures ok <==>
      f.mimeType == "application/json" &&
      (f.name == "json" || (|f.name| >= 5 && f.name[|f.name| - 5..] == ".json"))
  {
    LastSegmentIs(f.name, '.', "json");
    assert ['.'] + "json" == ".json";
    f.mimeType in SupportedFileTypes && LastSegment(f.name, '.') in SupportedFileExtensions
  }

  /** The host calls made when a file is refused: one alert naming the
      supported extensions, then closing the host dialog. */
  function RejectionEffects(instant: Message -> string): (e: seq<Effect>)
    ensures |e| == 2 && e[0].OpenAlert? && e[1] == CloseHostDialog
    ensures forall k :: 0 <= k < |e| ==> !e[k].ReadAsText?
  {
    [OpenAlert(instant(ThereWasAProblem), true,
               Some(instant(UnsupportedFileFormat(Join(SupportedFileExtensions, ',')))),
               instant(Close)),
     CloseHostDialog]
  }

  /** The load handler does not throw: the parsed root is not `null` (reading
      its length would throw) and no element of an array root is `null`
      (testing its own properties would throw). */
  predicate LoadDoesNotThrow(parsed: ParseResult)
  {
    parsed.Parsed? ==>
      parsed.value != Null &&
      (parsed.value.Arr? ==> forall k :: 0 <= k < |parsed.value.items| ==> parsed.value.items[k] != Null)
  }

  predicate NoNullRow(rows: seq<JsonValue>)
  {
    forall k :: 0 <= k < |rows| ==> rows[k] != Null
  }

  /** Every row fits the row schema (so passes all three checks). */
  predicate AllRowsValid(rows: seq<JsonValue>)
  {
    forall k :: 0 <= k < |rows| ==> IsWellFormedRow(rows[k])
  }

  /** The entry recorded for the row at 0-based position `index`: none, or one
      "error in item" message numbered from 1. */
  function EntryFor(index: nat, row: JsonValue): (r: seq<Message>)
    requires row != Null
    ensures |r| <= 1 && (r == [] <==> IsWellFormedRow(row))
  {
    match RowCheck(row)
    case None => []
    case Some(e) => [ErrorInItem(index + 1, Describe(e))]
  }

  /** The entries the forEach pass collects over `rows`, in row order: at
      most one per row.
      `EntriesSound`, `EntriesComplete` and `EntriesEmptyIff` pin it exactly. */
  function Entries(rows: seq<JsonValue>): (r: seq<Message>)
    requires NoNullRow(rows)
    ensures |r| <= |rows|
  {
    if rows == [] then []
    else Entries(rows[..|rows| - 1]) + EntryFor(|rows| - 1, rows[|rows| - 1])
  }

  /** Each message through the translation service, in order. */
  function TranslateAll(ms: seq<Message>, instant: Message -> string): (r: seq<string>)
    ensures |r| == |ms| && forall k :: 0 <= k < |ms| ==> r[k] == instant(ms[k])
  {
    if ms == [] then []
    else TranslateAll(ms[..|ms| - 1], instant) + [instant(ms[|ms| - 1])]
  }

  /** Helper: translating a concatenation translates each part. */
  lemma TranslateAllAppend(a: seq<Message>, b: seq<Message>, instant: Message -> string)
    ensures TranslateAll(a + b, instant) == TranslateAll(a, instant) + TranslateAll(b, instant)
  {
    var l, r := TranslateAll(a + b, instant), TranslateAll(a, instant) + TranslateAll(b, instant);
    assert |l| == |r|;
    forall k | 0 <= k < |l| ensures l[k] == r[k] {
      if k < |a| { assert (a + b)[k] == a[k]; } else { assert (a + b)[k] == b[k - |a|]; }
    }
  }

  /** `errors.join('\n')` at the end of the pass: the translated entries,
      one per line. It is empty when every row is valid. */
  function ErrorText(rows: seq<JsonValue>, instant: Message -> string): (t: string)
    requires NoNullRow(rows)
    ensures AllRowsValid(rows) ==> t == ""
  {
    EntriesEmptyIff(rows);
    Join(TranslateAll(Entries(rows), instant), '\n')
  }

  /** The onload handler as a function of the state before it and the parse
      outcome. */
  function AfterLoad(s: UploadState, parsed: ParseResult, instant: Message -> string): (r: UploadState)
    requires LoadDoesNotThrow(parsed)
    // the failure flag is only ever raised: it ends up set exactly when it
    // already was, the text did not parse, the root is not an array or a row fails
    ensures r.isUploadFailed <==>
      s.isUploadFailed || parsed.ParseFailed? || !parsed.value.Arr? || !AllRowsValid(parsed.value.items)
    // a parse failure reports invalid JSON and keeps the previous content and count
    ensures parsed.ParseFailed? ==>
      r.fileContent == s.fileContent && r.totalRecords == s.totalRecords &&
      r.uploadError == instant(InvalidJson)
    // any parsed root is stored, and its length read, before the array check
    ensures parsed.Parsed? ==>
      r.fileContent == parsed.value && r.totalRecords == Get(parsed.value, "length")
    ensures parsed.Parsed? && !parsed.value.Arr? ==> r.uploadError == instant(InvalidJson)
    // an array is kept whole and counted, whatever its rows contain
    ensures parsed.Parsed? && parsed.value.Arr? ==>
      r.totalRecords == Defined(Num(|parsed.value.items| as real))
    ensures parsed.Parsed? && parsed.value.Arr? && AllRowsValid(parsed.value.items) ==>
      r.uploadError == ""
  {
    match parsed
    case ParseFailed =>
      s.(isUploadFailed := true, uploadError := instant(InvalidJson))
    case Parsed(data) =>
      if !data.Arr? then
        UploadState(true, instant(InvalidJson), data, Get(data, "length"))
      else
        UploadState(
          s.isUploadFailed || !AllRowsValid(data.items),
          ErrorText(data.items, instant),
          data,
          Get(data, "length"))
  }

  /** No entry is recorded exactly when every row is valid. */
  lemma {:induction false} EntriesEmptyIff(rows: seq<JsonValue>)
    requires NoNullRow(rows)
    ensures Entries(rows) == [] <==> AllRowsValid(rows)
  {
    if rows != [] {
      var init, last := rows[..|rows| - 1], rows[|rows| - 1];
      EntriesEmptyIff(init);
      assert Entries(rows) == Entries(init) + EntryFor(|rows| - 1, last);
      AllRowsValidSplit(rows);
    }
  }

  /** Helper: all rows are valid exactly when all but the last are and the last is. */
  lemma AllRowsValidSplit(rows: seq<JsonValue>)
    requires rows != []
    ensures AllRowsValid(rows) <==> AllRowsValid(rows[..|rows| - 1]) && IsWellFormedRow(rows[|rows| - 1])
  {
    var init := rows[..|rows| - 1];
    assert forall k :: 0 <= k < |init| ==> init[k] == rows[k];
  }

  /** Helper: one more row adds its own entry to those before it, and is
      valid alongside them. */
  lemma EntriesOfPrefix(rows: seq<JsonValue>, index: nat)
    requires NoNullRow(rows) && index < |rows|
    ensures Entries(rows[..index + 1]) == Entries(rows[..index]) + EntryFor(index, rows[index])
    ensures AllRowsValid(rows[..index + 1]) <==> AllRowsValid(rows[..index]) && IsWellFormedRow(rows[index])
  {
    assert rows[..index + 1][..index] == rows[..index];
    AllRowsValidSplit(rows[..index + 1]);
  }

  /** `m` is the entry recorded for a failing row of `rows`: it carries the
      row's 1-based position and the text of the row's error. */
  predicate IsEntryOf(rows: seq<JsonValue>, m: Message)
    requires NoNullRow(rows)
  {
    m.ErrorInItem? && 1 <= m.index <= |rows| && RowCheck(rows[m.index - 1]).Some? &&
    m.error == Describe(RowCheck(rows[m.index - 1]).value)
  }

  /** Helper: an entry for a prefix of the rows is an entry for the rows. */
  lemma EntryOfPrefix(rows: seq<JsonValue>, n: nat, m: Message)
    requires NoNullRow(rows) && n <= |rows| && IsEntryOf(rows[..n], m)
    ensures IsEntryOf(rows, m)
  {
    assert rows[..n][m.index - 1] == rows[m.index - 1];
  }

  /** Helper: if every entry of the rows before the last is one of theirs,
      every entry of all the rows is one of theirs. */
  lemma EntriesSoundStep(rows: seq<JsonValue>)
    requires NoNullRow(rows) && rows != []
    requires var init := rows[..|rows| - 1];
      forall k :: 0 <= k < |Entries(init)| ==> IsEntryOf(init, Entries(init)[k])
    ensures forall k :: 0 <= k < |Entries(rows)| ==> IsEntryOf(rows, Entries(rows)[k])
  {
    var init, last := rows[..|rows| - 1], rows[|rows| - 1];
    var ei, ef := Entries(init), EntryFor(|rows| - 1, last);
    assert Entries(rows) == ei + ef;
    forall k | 0 <= k < |ei| ensures IsEntryOf(rows, ei[k]) {
      EntryOfPrefix(rows, |rows| - 1, ei[k]);
    }
    if ef != [] {
      assert IsEntryOf(rows, ef[0]);
    }
  }

  /** Helper: the entries of the rows before the last are numbered within
      them, so the last row's entry, numbered |rows|, comes after them all. */
  lemma EntriesOrderStep(rows: seq<JsonValue>)
    requires NoNullRow(rows) && rows != []
    requires var init := rows[..|rows| - 1];
      (forall k :: 0 <= k < |Entries(init)| ==> IsEntryOf(init, Entries(init)[k])) &&
      forall k, l :: 0 <= k < l < |Entries(init)| ==>
        Entries(init)[k].ErrorInItem? && Entries(init)[l].ErrorInItem? &&
        Entries(init)[k].index < Entries(init)[l].index
    ensures forall k, l :: 0 <= k < l < |Entries(rows)| ==>
      Entries(rows)[k].ErrorInItem? && Entries(rows)[l].ErrorInItem? &&
      Entries(rows)[k].index < Entries(rows)[l].index
  {
    var init := rows[..|rows| - 1];
    var ei, ef := Entries(init), EntryFor(|rows| - 1, rows[|rows| - 1]);
    var e := Entries(rows);
    assert e == ei + ef;
    forall k, l | 0 <= k < l < |e|
      ensures e[k].ErrorInItem? && e[l].ErrorInItem? && e[k].index < e[l].index
    {
      assert e[k] == ei[k] && IsEntryOf(init, ei[k]);
      if l < |ei| {
        assert e[l] == ei[l];
      } else {
        assert e[l] == ef[0];
      }
    }
  }

  /** Each entry names a failing row by its 1-based position and carries that
      row's error text; entries are in strictly increasing row order, so there
      is at most one per row. */
  lemma {:induction false} EntriesSound(rows: seq<JsonValue>)
    requires NoNullRow(rows)
    ensures |Entries(rows)| <= |rows|
    ensures forall k :: 0 <= k < |Entries(rows)| ==> IsEntryOf(rows, Entries(rows)[k])
    ensures forall k, l :: 0 <= k < l < |Entries(rows)| ==>
      Entries(rows)[k].ErrorInItem? && Entries(rows)[l].ErrorInItem? &&
      Entries(rows)[k].index < Entries(rows)[l].index
  {
    if rows != [] {
      EntriesSound(rows[..|rows| - 1]);
      EntriesSoundStep(rows);
      EntriesOrderStep(rows);
    }
  }

  /** Every failing row has its entry. */
  lemma {:induction false} EntriesComplete(rows: seq<JsonValue>, i: nat)
    requires NoNullRow(rows) && i < |rows|
    requires !IsWellFormedRow(rows[i])
    ensures exists k :: 0 <= k < |Entries(rows)| && Entries(rows)[k] == ErrorInItem(i + 1, Describe(RowCheck(rows[i]).value))
  {
    var init := rows[..|rows| - 1];
    if i == |rows| - 1 {
      assert Entries(rows)[|Entries(init)|] == ErrorInItem(i + 1, Describe(RowCheck(rows[i]).value));
    } else {
      assert init[i] == rows[i];
      EntriesComplete(init, i);
      var k :| 0 <= k < |Entries(init)| &&
        Entries(init)[k] == ErrorInItem(i + 1, Describe(RowCheck(init[i]).value));
      assert Entries(rows)[k] == Entries(init)[k];
    }
  }

  /** The error text read back line by line: when no translated entry holds a
      line break and some row fails, splitting uploadError at '\n' gives one
      line per failing row, in row order. */
  lemma ErrorLines(s: UploadState, rows: seq<JsonValue>, instant: Message -> string)
    requires NoNullRow(rows) && !AllRowsValid(rows)
    requires forall m :: m in Entries(rows) ==> '\n' !in instant(m)
    ensures Split(AfterLoad(s, Parsed(Arr(rows)), instant).uploadError, '\n') ==
            TranslateAll(Entries(rows), instant)
  {
    var lines := TranslateAll(Entries(rows), instant);
    EntriesEmptyIff(rows);
    assert forall k :: 0 <= k < |lines| ==> '\n' !in lines[k] by {
      forall k | 0 <= k < |lines| ensures '\n' !in lines[k] {
        assert Entries(rows)[k] in Entries(rows);
      }
    }
    SplitOfJoin(lines, '\n');
  }

  /** Loading the same parse outcome twice leaves the same state as loading it once. */
  lemma AfterLoadIdempotent(s: UploadState, parsed: ParseResult, instant: Message -> string)
    requires LoadDoesNotThrow(parsed)
    ensures AfterLoad(AfterLoad(s, parsed, instant), parsed, instant) == AfterLoad(s, parsed, instant)
  {
  }

  /** A new uploader given one valid row: no failure, no error text, the row
      kept and counted. */
  lemma ValidRowScenario(instant: Message -> string)
    ensures var row := Obj(map["id" := Num(1.0), "name" := Str("Test"), "status" := Str("active")]);
      var r := AfterLoad(InitialState, Parsed(Arr([row])), instant);
      !r.isUploadFailed && r.uploadError == "" && r.fileContent == Arr([row]) &&
      r.totalRecords == Defined(Num(1.0))
  {
    var row := Obj(map["id" := Num(1.0), "name" := Str("Test"), "status" := Str("active")]);
    assert IsWellFormedRow(row);
    assert AllRowsValid([row]);
  }

  /** Helper: the entries of a single row. */
  lemma EntriesOfOne(row: JsonValue)
    requires row != Null
    ensures Entries([row]) == EntryFor(0, row)
  {
    assert [row][..0] == [];
  }

  /** A row without an id is reported, as item 1, for its missing id. */
  lemma MissingIdScenario()
    ensures Entries([Obj(map["name" := Str("X"), "status" := Str("active")])]) ==
            [ErrorInItem(1, "Missing required column: id")]
  {
    var row := Obj(map["name" := Str("X"), "status" := Str("active")]);
    assert "id" !in row.fields;
    assert !HasOwn(row, "id");
    assert HasRequiredColumns(row) == Some(MissingColumn(Id));
    assert RowCheck(row) == Some(MissingColumn(Id));
    assert Describe(MissingColumn(Id)) == "Missing required column: id";
    EntriesOfOne(row);
  }

  /** A row whose status is not one of the allowed values is reported with
      that value. */
  lemma UnknownStatusScenario()
    ensures Entries([Obj(map["id" := Num(1.0), "name" := Str("X"), "status" := Str("unknown")])]) ==
            [ErrorInItem(1, "Invalid status value: unknown")]
  {
    var row := Obj(map["id" := Num(1.0), "name" := Str("X"), "status" := Str("unknown")]);
    assert HasOwn(row, "id") && HasOwn(row, "name") && HasOwn(row, "status");
    assert Get(row, "status") == Defined(Str("unknown"));
    assert "unknown" !in ValidStatuses;
    assert RowCheck(row) == Some(InvalidStatus(Defined(Str("unknown"))));
    assert Describe(InvalidStatus(Defined(Str("unknown")))) == "Invalid status value: unknown";
    EntriesOfOne(row);
  }

  /** A row missing its name and carrying a bad status is reported only for
      the missing name. */
  lemma PrecedenceScenario()
    ensures Entries([Obj(map["id" := Num(1.0), "status" := Str("gone")])]) ==
            [ErrorInItem(1, "Missing required column: name")]
  {
    var row := Obj(map["id" := Num(1.0), "status" := Str("gone")]);
    assert HasOwn(row, "id") && !HasOwn(row, "name");
    assert RowCheck(row) == Some(MissingColumn(Name));
    assert Describe(MissingColumn(Name)) == "Missing required column: name";
    EntriesOfOne(row);
  }

  /** An id too long for a plain number arrives as a BigNumber object, whose
      `typeof` is not "number", so the row is reported for the type of its id. */
  lemma BigIdScenario()
    ensures Entries([Obj(map["id" := BigNum("12345678901234567890"), "name" := Str("X"), "status" := Str("active")])]) ==
            [ErrorInItem(1, "Invalid type for column: id")]
  {
    var row := Obj(map["id" := BigNum("12345678901234567890"), "name" := Str("X"), "status" := Str("active")]);
    assert HasOwn(row, "id") && HasOwn(row, "name") && HasOwn(row, "status");
    assert TypeOf(Get(row, "id")) == "object";
    assert RowCheck(row) == Some(InvalidType(Id));
    assert Describe(InvalidType(Id)) == "Invalid type for column: id";
    EntriesOfOne(row);
  }

  /** The failure flag is never reset: after an earlier failure, loading a
      file whose rows are all valid leaves the upload marked failed, with an
      empty error text. */
  lemma StickyFailureScenario(s: UploadState, rows: seq<JsonValue>, instant: Message -> string)
    requires s.isUploadFailed && AllRowsValid(rows)
    ensures var r := AfterLoad(s, Parsed(Arr(rows)), instant);
      r.isUploadFailed && r.uploadError == "" && r.fileContent == Arr(rows)
  {
  }

  /** Text that does not parse, and a root that is an object, both report
      invalid JSON; the first keeps the empty content of a new uploader, the
      second stores the object and its (undefined) length. */
  lemma InvalidJsonScenarios(instant: Message -> string)
    ensures var r := AfterLoad(InitialState, ParseFailed, instant);
      r.isUploadFailed && r.uploadError == instant(InvalidJson) &&
      r.fileContent == Arr([]) && r.totalRecords == Defined(Num(0.0))
    ensures var r := AfterLoad(InitialState, Parsed(Obj(map["id" := Num(1.0)])), instant);
      r.isUploadFailed && r.uploadError == instant(InvalidJson) &&
      r.fileContent == Obj(map["id" := Num(1.0)]) && r.totalRecords == Undefined
  {
  }

  /** The gate on concrete files: a plain-text file is refused, as is an upper-case
      extension; a ".json" file and a file named just "json" are accepted. */
  lemma AcceptScenarios()
    ensures !Accepts(FileInfo("a.txt", "text/plain"))
    ensures !Accepts(FileInfo("data.JSON", "application/json"))
    ensures !Accepts(FileInfo("data.json", "text/plain"))
    ensures Accepts(FileInfo("data.json", "application/json"))
    ensures Accepts(FileInfo("json", "application/json"))
  {
    assert "a.txt" != "json" && "a.txt"[0..] != ".json";
    assert "data.JSON" != "json" && "data.JSON"[4..][2] != ".json"[2];
    assert "data.json"[4..] == ".json";
  }

  /** The uploader. The translation service is the injected function
      `instant`; the alert dialog, the host dialog and the file reader are
      recorded as `effects`. */
  class FileUploader {
    const instant: Message -> string
    var isUploadFailed: bool
    var uploadError: string
    var fileContent: JsonValue
    var totalRecords: JsAny
    var progress: int
    var file: Option<FileInfo>
    ghost var effects: seq<Effect>

    /** The fields the load handler updates. */
    function State(): UploadState
      reads this
    {
      UploadState(isUploadFailed, uploadError, fileContent, totalRecords)
    }

    constructor (instant: Message -> string)
      ensures this.instant == instant
      ensures State() == InitialState && progress == 0 && file == None && effects == []
    {
      this.instant := instant;
      isUploadFailed := false;
      uploadError := "";
      fileContent := Arr([]);
      totalRecords := Defined(Num(0.0));
      progress := 0;
      file := None;
      effects := [];
    }

    /** uploadFile up to the start of the read: an accepted file is kept and
        read; a refused one raises one alert, closes the host dialog, and
        nothing is read and no field changes. */
    method UploadFile(f: FileInfo)
      modifies this
      ensures State() == old(State()) && progress == old(progress)
      ensures Accepts(f) ==> file == Some(f) && effects == old(effects) + [ReadAsText(f)]
      ensures !Accepts(f) ==> file == old(file) && effects == old(effects) + RejectionEffects(instant)
    {
      if f.mimeType in SupportedFileTypes && LastSegment(f.name, '.') in SupportedFileExtensions {
        file := Some(f);
        effects := effects + [ReadAsText(f)];
      } else {
        effects := effects + [OpenAlert(
          instant(ThereWasAProblem),
          true,
          Some(instant(UnsupportedFileFormat(Join(SupportedFileExtensions, ',')))),
          instant(Close))];
        effects := effects + [CloseHostDialog];
        return;
      }
    }

    /** The onload handler, given what the parser made of the file's text. */
    method OnLoad(parsed: ParseResult)
      requires LoadDoesNotThrow(parsed)
      modifies this
      ensures State() == AfterLoad(old(State()), parsed, instant)
      ensures progress == old(progress) && file == old(file) && effects == old(effects)
    {
      if parsed.ParseFailed? {
        isUploadFailed := true;
        uploadError := instant(InvalidJson);
        return;
      }
      var data := parsed.value;
      fileContent := data;
      totalRecords := Get(data, "length");
      if !data.Arr? {
        isUploadFailed := true;
        uploadError := instant(InvalidJson);
        return;
      }
      var rows := data.items;
      var errors: seq<string> := [];
      var index := 0;
      while index < |rows|
        invariant 0 <= index <= |rows|
        invariant errors == TranslateAll(Entries(rows[..index]), instant)
        invariant isUploadFailed == (old(isUploadFailed) || !AllRowsValid(rows[..index]))
        invariant fileContent == data && totalRecords == Get(data, "length")
        invariant progress == old(progress) && file == old(file) && effects == old(effects)
      {
        errors := VisitRow(rows[index], index, errors);
        EntriesOfPrefix(rows, index);
        TranslateAllAppend(Entries(rows[..index]), EntryFor(index, rows[index]), instant);
        index := index + 1;
      }
      assert rows[..index] == rows;
      uploadError := Join(errors, '\n');
      assert uploadError == ErrorText(rows, instant);
    }

    /** The forEach callback for the row at 0-based position `index`: the first
        error of the row, if any, marks the upload failed and is appended to
        `errors` as a translated, 1-based "error in item" message. */
    method VisitRow(row: JsonValue, index: nat, errors: seq<string>) returns (errors': seq<string>)
      requires row != Null
      modifies this`isUploadFailed
      ensures errors' == errors + TranslateAll(EntryFor(index, row), instant)
      ensures isUploadFailed == (old(isUploadFailed) || !IsWellFormedRow(row))
    {
      errors' := errors;
      var columnError := HasRequiredColumns(row);
      var typeError := ValidateColumnTypes(row);
      var statusError := ValidateStatusType(row);
      if columnError.Some? || typeError.Some? || statusError.Some? {
        isUploadFailed := true;
        var error := if columnError.Some? then columnError.value
                     else if typeError.Some? then typeError.value
                     else statusError.value;
        assert RowCheck(row) == Some(error);
        errors' := errors' + [instant(ErrorInItem(index + 1, Describe(error)))];
      }
    }

    /** The onerror handler: the upload is marked failed, an alert shows the
        reader's error message (when there is one) and the host dialog closes. */
    method OnError(errorMessage: Option<string>)
      modifies this
      ensures isUploadFailed
      ensures uploadError == old(uploadError) && fileContent == old(fileContent)
      ensures totalRecords == old(totalRecords) && progress == old(progress) && file == old(file)
      ensures effects == old(effects) +
        [OpenAlert(instant(ThereWasAProblem), true, errorMessage, instant(Close)), CloseHostDialog]
    {
      isUploadFailed := true;
      effects := effects + [OpenAlert(instant(ThereWasAProblem), true, errorMessage, instant(Close))];
      effects := effects + [CloseHostDialog];
    }
  }
}
