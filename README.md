# FileUploader, modelled in Dafny

A model of the decision logic of `FileUploader` (fileReader.js), a browser-side helper that
accepts a user-chosen file, parses it as JSON with json-bigint and validates every record of
the resulting array. Each record needs an `id` that is a number, a `name` that is a string, and a
`status` that is one of `active`, `inactive` or `pending`.

The model has five modules:

- `Wrappers` holds `Option`.
- `Text` models `split('.').pop()` (the extension test) and `join`, and proves that splitting a join gives the parts back.
- `Json` models the values json-bigint returns. Short numerals become plain numbers (`Num`); longer ones become BigNumber objects (`BigNum`). It also models the three JavaScript operations the validators use: `typeof`, `hasOwnProperty` and a property read.
- `Validators` models `hasRequiredColumns`, `validateColumnTypes` and `validateStatusType`, plus `RowCheck`. `RowCheck` is the `columnError || typeError || statusError` choice, and it is proved to report nothing exactly when the row fits the schema.
- `Uploader` holds the acceptance gate, the `onload` handler as the function `AfterLoad`, and the class `FileUploader`. The class has the source's fields. Its `OnLoad` method walks the rows in a loop and is proved to reach the state `AfterLoad` describes.

The translation service is the function `instant`, given to the constructor. The model does not fix any localized text: a message is a `Message` value handed to `instant`. Calls to the alert dialog, to the host dialog's `close`, and the start of the read are recorded in the ghost log `effects`.

The model keeps three behaviours of the code that a reader might not expect:

- After a parse failure, `fileContent` and `totalRecords` keep their previous values. They are not emptied.
- For a root that is not an array, `fileContent` and `totalRecords` are assigned before the array check. So `totalRecords` holds whatever `data.length` reads: `undefined` for most objects, the length of a string, or an object's own `length` field.
- `isUploadFailed` is never reset. It is set exactly when it was already set or this load failed. "Failed iff some row fails" therefore holds only for a new uploader.

## Model

| member | source | states |
|---|---|---|
| Text.Split | fileReader.js:23 | `split` with a one-character separator gives at least one part, no part holds the separator, and joining the parts gives the input back |
| Text.LastSegment | fileReader.js:23 | `split(sep).pop()` is a separator-free suffix of the name that is either the whole name or directly follows a separator |
| Text.LastSegmentIs | fileReader.js:23 | for a separator-free word w, the last segment equals w iff the name is w or ends with the separator followed by w |
| Text.JoinEndsWithLast | fileReader.js:23 | a joined text ends with its last part, preceded by the separator when there are several parts |
| Text.Join | fileReader.js:84 | `join` (also used at line 32) starts with the first part, puts the separator right after it when there are more parts, and has at least one character per separator; SplitOfJoin pins it exactly by proving that splitting the joined text gives the parts back |
| Text.SplitOfJoin | fileReader.js:84 | splitting a `join` of separator-free parts at the separator gives back exactly those parts |
| Json.TypeOf | fileReader.js:117-124 | `typeof` is "number" exactly for a plain number (not for a BigNumber) and "string" exactly for a string |
| Json.HasOwn | fileReader.js:109 | the own-property test holds on an object exactly for its fields and on an array or string exactly for "length"; other values own none of the keys the uploader asks about; HasRequiredColumns states the column check through it |
| Json.Get | fileReader.js:117-131 | a property read of a parsed value is defined exactly when the property is an own property; on an object it is the field's value |
| Validators.FirstMissingFrom | fileReader.js:107-113 | the early-return search yields no column iff every remaining column is owned, otherwise a missing column all of whose predecessors are owned |
| Validators.HasRequiredColumns | fileReader.js:106-114 | null iff id, name and status are all own properties; otherwise the first missing one in the order id, name, status (each outcome as an iff) |
| Validators.ValidateColumnTypes | fileReader.js:116-127 | null iff id is a number and name and status are strings; otherwise the first mismatch in the order id, name, status (each outcome as an iff) |
| Validators.ValidateStatusType | fileReader.js:129-135 | null iff status is exactly "active", "inactive" or "pending"; otherwise an invalid-status error carrying the status read |
| Validators.RowCheck | fileReader.js:69-78 | no error iff the row is an object with a plain-number id, a string name and an allowed status string; column error wins, then type error, then status error; a reported status error always concerns a string status |
| Validators.Describe | fileReader.js:110-132 | an error text is the lead-in of its check followed by the missing or mistyped column's key, or by the status read |
| Validators.DescribeInjective | fileReader.js:110-132 | the three error texts never collide: different errors never get the same text. This is about the texts alone: a status value may itself hold a line break, which then adds lines to `uploadError`, and that is why ErrorLines asks for entries without line breaks |
| Uploader.Accepts | fileReader.js:16-24 | a file is accepted iff its type is exactly "application/json" and its name is "json" or ends with ".json" (case-sensitive) |
| Uploader.RejectionEffects | fileReader.js:27-37 | a rejection makes exactly two host calls: one alert, then closing the host dialog, and no read |
| Uploader.EntryFor | fileReader.js:73-81 | a row yields at most one entry, and none exactly when it fits the schema |
| Uploader.TranslateAll | fileReader.js:75-80 | every collected entry is the translation of its message, in order |
| Uploader.ErrorText | fileReader.js:84 | the joined error text is empty when every row is valid |
| Uploader.AfterLoad | fileReader.js:40-85 | the failure flag ends up set iff it was set, parsing failed, the root is not an array or some row fails; a parse failure keeps content and count and reports invalid JSON; a parsed root is stored and its length read before the array check; an array is kept whole and counted |
| Uploader.Entries | fileReader.js:68-82 | the forEach pass collects at most one entry per row; EntriesSound (each entry is a failing row's 1-based position and error text, in increasing order), EntriesComplete (every failing row has its entry) and EntriesEmptyIff (no entries iff every row is valid) pin it exactly |
| Uploader.EntriesEmptyIff | fileReader.js:68-84 | no entry is collected iff every row is valid |
| Uploader.EntriesSound | fileReader.js:68-81 | every entry carries the 1-based position of a failing row and that row's error text; positions strictly increase, so there is at most one entry per row |
| Uploader.EntriesComplete | fileReader.js:68-81 | every failing row has an entry with its 1-based position and its error text |
| Uploader.ErrorLines | fileReader.js:84 | if no translated entry holds a line break and at least one row fails, splitting the error text at line breaks gives the translated entries, one per failing row, in row order |
| Uploader.AfterLoadIdempotent | fileReader.js:40-85 | loading the same parse outcome twice gives the same state as loading it once |
| Uploader.ValidRowScenario | fileReader.js:56-84 | a new uploader given one valid row is not failed, has empty error text, and keeps and counts the row |
| Uploader.MissingIdScenario | fileReader.js:106-114 | a row without id yields "Missing required column: id" as item 1 |
| Uploader.UnknownStatusScenario | fileReader.js:129-135 | a row with status "unknown" yields "Invalid status value: unknown" as item 1 |
| Uploader.PrecedenceScenario | fileReader.js:73-78 | a row missing name and with a bad status is reported only for the missing name |
| Uploader.BigIdScenario | fileReader.js:116-119 | an id parsed as a BigNumber fails the type check for id |
| Uploader.StickyFailureScenario | fileReader.js:40-85 | after an earlier failure, a load whose rows are all valid still leaves the upload failed, with empty error text |
| Uploader.InvalidJsonScenarios | fileReader.js:46-66 | unparsable text on a new uploader reports invalid JSON and keeps `[]` and 0; an object root reports invalid JSON, is stored, and its length reads as undefined |
| Uploader.AcceptScenarios | fileReader.js:21-24 | "a.txt"/text/plain, "data.JSON" and a wrong type are refused; "data.json" and "json" with the JSON type are accepted |
| Uploader.FileUploader.constructor | fileReader.js:4-13 | a new uploader is not failed, has empty error text, content `[]`, count 0, progress 0, no file and no host calls |
| Uploader.FileUploader.UploadFile | fileReader.js:15-38 | an accepted file is kept and its read started; a refused one produces exactly the rejection calls; the four upload fields never change here |
| Uploader.FileUploader.OnLoad | fileReader.js:40-85 | the new state is `AfterLoad` of the old state and the parse outcome; nothing else changes |
| Uploader.FileUploader.VisitRow | fileReader.js:68-82 | one forEach step appends the row's translated entry, if any, and raises the flag iff the row fails |
| Uploader.FileUploader.OnError | fileReader.js:87-97 | a read error marks the upload failed, opens one alert with the reader's message (if any) and closes the host dialog |

## Left out

- The `FileReader` object and its callback wiring (`readAsText` and the `onload`/`onerror`/`onprogress` registrations) are browser plumbing. Starting a read is recorded as the `ReadAsText` effect. `onload` and `onerror` are methods the host calls.
- Progress (`Math.round(loaded / total * 100)`) is floating-point arithmetic and is not modelled. The `progress` field stays 0.
- `JSONBig.parse` is a third-party library and is not part of this model. The load handler takes its outcome as input: a value, or a failure. Its grammar, its BigNumber threshold and its options are not modelled.
- Numbers are modelled as reals, with no rounding to doubles. Only whether a value is a number matters to the uploader.
- The translation service and the dialogs are foreign code. Translation is the injected function `instant` over `Message` values. Dialog calls are recorded as ghost `effects`.
- Crashes of the JavaScript runtime are excluded by preconditions (`LoadDoesNotThrow`, `row != Null`), except the status conversion described below. A `null` root makes `data.length` throw. A `null` row makes `hasOwnProperty.call` throw.
- Validators.ValidateStatusType: the error keeps the status value, not its text. Converting a non-string status to text (`${row.status}`) is not modelled. That text is evaluated but never used, because a non-string status always loses to a type error. For an object status the conversion could throw, depending on the object's prototype, and that is not captured.
- String lengths (a string root's `length`) count Dafny characters, not UTF-16 code units.
- Json.HasOwn and Json.Get are exact only for the keys the uploader uses ("id", "name", "status", "length"). Keys that start with a digit, such as array and string indexes, are excluded. Other keys are allowed but not modelled faithfully: a BigNumber's own fields `c`, `e` and `s` read as absent. The uploader reads none of those keys.
- Uploading again while a read is still in flight is not modelled. Each method runs to completion on its own.
