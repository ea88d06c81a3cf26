# RFID lab attendance store — Dafny model

A model of the record store of the RFID lab attendance system (class
`RFIDSystem` in C++). It has three parts:

- the store itself: registered users, the day's scan logs and the IN/OUT
  status of each id;
- the operations that change the store: registering a user, a badge scan,
  clearing the day's logs, and loading the binary log file;
- the views built from the store: look-up, per-user search, timestamp
  order, the daily report, the binary log file and the JSON export.

It also models the input checks of the console shell: `trim`, the user-id
and name validators, and the role menu.

Files and modules:

- `records.dfy`, module `Records`: the `User` and `ScanLog` records, with
  `operator<` (compare by timestamp), the filter by user id, the last action
  of a user, and the IN/OUT toggle.
- `sorting.dfy`, module `Sorting`: the in-place sort that stands in for
  `std::sort`. It is an insertion sort over an `array`. It is proved sorted
  and a permutation, and claims nothing about the order of equal
  timestamps.
- `codec.dfy`, module `Codec`: the binary log file, as pure `Encode` and
  `Decode` with the round trip `Decode(Encode(logs) + trailing) ==
  Some(logs)`. Layout:
  - an 8-byte little-endian unsigned count;
  - per log, three strings, each an 8-byte length followed by its bytes;
  - per log, an 8-byte two's complement timestamp.
- `json.dfy`, module `Json`: `escapeJsonString`, its inverse (the decoding
  a JSON reader applies), integer printing with its inverse, and the
  exported document as a pure string builder.
- `validation.dfy`, module `Validation`: `trim`, `isValidUserId`,
  `isValidName` and the role menu. Character classes are ASCII.
- `rfid_system.dfy`, module `RfidSystem`: class `RFIDSystem`. Its fields are
  `users` (a `seq`), `dailyLogs` (a `seq`) and `userStatus` (a `map`). Its
  methods change those fields in place. It keeps the invariant `Valid()`:
  - every registered id has a status entry;
  - every status is "IN" or "OUT";
  - ids, names and logs are what the C++ types can hold (byte strings,
    64-bit timestamps), so the logs can always be saved.

Nothing here reads a clock, a file or the console. Times are parameters:
- `now` is the time of a scan;
- `formatTime` stands for the local-time formatting of a log;
- `exportTime` is the time of the export.

A file is represented as a byte sequence. A file that cannot be opened is
`None` for loading and `canOpen == false` for writing.

The code is narrower than its header and comments suggest; the model
follows the code:

- The binary file holds only the log sequence. It has no version tag and no
  user or status table.
- Loading from a file that cannot be opened leaves the logs as they are.
- The JSON document has `daily_logs`, `total_scans` and `export_time` at top
  level. It has no `users` array and no `summary` object.
- `isValidName` rejects an apostrophe.
- `addUser` does not reject an id that is already registered.
- There is no `clearAllData`. It is declared but never defined.

## Model

| member | source | states |
|---|---|---|
| Records.LessIsStrictWeakOrder | ScanLog.h:28-30 | `operator<` compares timestamps only. It is irreflexive, asymmetric and transitive. Two logs are equivalent exactly when their timestamps are equal, whatever their other fields, and that equivalence is transitive. |
| Records.SortedMeansNoInversion | ScanLog.h:28-30 | In a timestamp-sorted sequence, no later log is `operator<`-less than an earlier one. |
| Records.FilterByIdMembers | RFIDSystem.cpp:63-67 | A log is in the per-user filter exactly when it is in the log sequence and has that user id. |
| Records.FilterByIdMultiset | RFIDSystem.cpp:63-67 | The filter keeps every log of that id with its multiplicity and drops every other log. |
| Records.FilterByIdSnoc | RFIDSystem.cpp:63-67 | Appending one log extends the filter by that log when its id matches, and leaves it unchanged otherwise. |
| Records.LastActionIsLatest | RFIDSystem.cpp:265-268 | With no log of the id, the last action is empty. Otherwise it is the action of a log of that id after which no log of the id follows. |
| Records.LastActionSnoc | RFIDSystem.cpp:265-268 | A log appended for the id becomes the id's last action; a log for another id leaves it unchanged. |
| Records.Toggle | RFIDSystem.cpp:47 | The new action is "IN" or "OUT", and it is "IN" exactly when the old status is "OUT". |
| Records.ToggleTwice | RFIDSystem.cpp:47-48 | Two toggles restore "IN" or "OUT". Any other status, such as a missing entry read as "", ends at "IN". |
| Records.ToggleParity | RFIDSystem.cpp:47-48 | Starting from "OUT", an odd number of scans leaves "IN" and an even number leaves "OUT". |
| Sorting.SwapDown | RFIDSystem.cpp:75 | Exchanging two neighbours keeps the same multiset of logs. |
| Sorting.InsertAt | RFIDSystem.cpp:75 | Moving one log down into a sorted prefix gives a sorted prefix one longer, with the same multiset. |
| Sorting.SortByTime | RFIDSystem.cpp:69 | The array ends sorted by timestamp and is a permutation of its old contents. |
| Codec.Pow256Eight | RFIDSystem.cpp:87-88 | Eight bytes hold exactly the values below 2^64, the range of a `size_t`. |
| Codec.LittleEndianRoundTrip | RFIDSystem.cpp:87-88 | Reading back the k low bytes of a number below 256^k gives that number. |
| Codec.TwosComplement | RFIDSystem.cpp:107 | The bit pattern of a `time_t` is an unsigned number below 2^64. |
| Codec.EncodeU64 | RFIDSystem.cpp:87-88 | A count or length is written as exactly 8 bytes. |
| Codec.EncodeI64 | RFIDSystem.cpp:107 | A timestamp is written as exactly 8 bytes. |
| Codec.CharsToBytes | RFIDSystem.cpp:94 | A string's data is written as one byte per character. |
| Codec.BytesToChars | RFIDSystem.cpp:135-136 | The bytes read become a string of the same length. |
| Codec.EncodeLogsSnoc | RFIDSystem.cpp:90-108 | The bytes for one more log are appended after the bytes already written. |
| Codec.EncodeLogsStep | RFIDSystem.cpp:90-108 | One turn of the write loop extends the file by the record of the next log. |
| Codec.ReadLogsStep | RFIDSystem.cpp:129-154 | Reading one record and then n - 1 more gives the same result as reading n. |
| Codec.ReadingStep | RFIDSystem.cpp:129-154 | The load loop's invariant survives a successful record read. |
| Codec.ReadNext | RFIDSystem.cpp:130-153 | Reads one record. If the read fails, the whole read fails. If it succeeds, the loop invariant holds with the record appended. |
| Codec.DecodeByLoop | RFIDSystem.cpp:125-154 | Once the loop has read all `count` logs, they are what `Decode` gives. |
| Codec.ReadU64Encode | RFIDSystem.cpp:87-88 | Reading a written count gives the count back, followed by the rest of the bytes. |
| Codec.ReadI64Encode | RFIDSystem.cpp:107 | Reading a written timestamp gives back the same, possibly negative, value. |
| Codec.ReadStringEncode | RFIDSystem.cpp:92-94 | Reading a written length-prefixed string gives back the same string and the rest of the bytes. |
| Codec.ReadLogEncode | RFIDSystem.cpp:90-108 | Reading a written record gives back the same userId, userName, action and timestamp. |
| Codec.ReadLogsEncode | RFIDSystem.cpp:129-154 | Reading n written records gives back the same n logs in the same order. |
| Codec.DecodeEncode | RFIDSystem.cpp:86-108 | Decoding the bytes written for a log sequence gives back that sequence, whatever bytes follow it. |
| Codec.FromLittleEndianBound | RFIDSystem.cpp:126 | k bytes read back as a number below 256^k. |
| Codec.ReadU64Bound | RFIDSystem.cpp:126 | A count or length read from the file is below 2^64, like a `size_t`. |
| Codec.ReadStringEncodable | RFIDSystem.cpp:133-136 | A string read from the file is a byte string whose length fits a `size_t`. |
| Codec.ReadI64InRange | RFIDSystem.cpp:151 | A timestamp read from the file fits a 64-bit `time_t`. |
| Codec.ReadLogEncodable | RFIDSystem.cpp:130-151 | Every record read from the file is one that can be written again. |
| Codec.ReadResultEncodable | RFIDSystem.cpp:130-153 | The same, for a read result held by the load loop. |
| Codec.EncodeLogsLength | RFIDSystem.cpp:90-108 | Each record takes 32 bytes plus the lengths of its three strings. |
| Json.EscapeChar | RFIDSystem.cpp:172-181 | Each of the seven special characters becomes a backslash and a letter. Every other character is copied unchanged. |
| Json.EscapeAppend | RFIDSystem.cpp:171-182 | Escaping works character by character, so the escape of a concatenation is the concatenation of the escapes. |
| Json.EscapeLength | RFIDSystem.cpp:169-184 | The output length is the input length plus the number of special characters. |
| Json.EscapeIdentity | RFIDSystem.cpp:169-184 | A string without special characters is returned unchanged. |
| Json.UnescapeEscapeChar | RFIDSystem.cpp:172-181 | A JSON reader decodes the escape of one character back to that character. |
| Json.UnescapeEscape | RFIDSystem.cpp:169-184 | A JSON reader decodes the escaped string back to the original, so escaping loses nothing. |
| Json.EscapeJsonString | RFIDSystem.cpp:169-184 | The loop's output is the escape of its input, and its length is the input length plus the number of special characters. |
| Json.NatToString | RFIDSystem.cpp:205 | A number is printed as a non-empty string of decimal digits. |
| Json.NatToStringValue | RFIDSystem.cpp:205 | The printed digits denote the number printed. |
| Json.IntToStringValue | RFIDSystem.cpp:205 | A printed integer, negative ones included, reads back as the same value. |
| Json.JoinShape | RFIDSystem.cpp:208-211 | The joined array has a separator after every object but the last, and no trailing comma. |
| Json.JoinAllSnoc | RFIDSystem.cpp:208-211 | Adding one more separated part extends the text at its end. |
| Json.LogObjects | RFIDSystem.cpp:198-212 | There is one object per log. |
| Json.ArrayPrefixStep | RFIDSystem.cpp:198-212 | Writing object i and its separator (",\n", or "\n" after the last) extends the written array by one object. |
| Json.ArrayPrefixComplete | RFIDSystem.cpp:198-212 | After the last object, the written array is the objects joined by ",\n", followed by "\n". |
| Validation.FirstNonSpace | main.cpp:22 | The result is the first index that is not a space, or `npos` (None) exactly when the string is all spaces. |
| Validation.LastNonSpace | main.cpp:24 | The result is the last index that is not a space, or None exactly when the string is all spaces. |
| Validation.Trim | main.cpp:21-26 | The result is "" exactly when the input is empty or all spaces. A non-empty result neither starts nor ends with a space. |
| Validation.TrimSpan | main.cpp:21-26 | The result is a contiguous slice of the input. Only spaces lie outside it, and its two ends are not spaces. Tabs and interior spaces are kept. |
| Validation.TrimNoEdgeSpaces | main.cpp:21-26 | A string that neither starts nor ends with a space is its own trim. |
| Validation.TrimIdempotent | main.cpp:21-26 | Trimming twice is the same as trimming once. |
| Validation.StripOfSpan | main.cpp:21-26 | Peeling spaces off both ends leaves the span between the first and last non-space characters. |
| Validation.TrimIsStrip | main.cpp:21-26 | `trim` agrees on every input with the reference definition that peels spaces off the front, then off the back. |
| Validation.IsValidUserId | main.cpp:28-34 | Accepts exactly the ids of 3 to 10 characters that are all ASCII letters or digits. |
| Validation.IsValidName | main.cpp:36-42 | Accepts exactly the names of 2 to 50 characters that are all ASCII letters, spaces, periods or hyphens, so an apostrophe is rejected. |
| Validation.ValidUserIdIsTrimmed | main.cpp:53-60 | A valid id is unchanged by trimming. |
| Validation.RoleForChoice | main.cpp:107-120 | Only 1, 2 and 3 select a role (student, staff, faculty); any other number is rejected. |
| RfidSystem.FirstWithId | RFIDSystem.cpp:30-37 | The position of the first user with the id and no earlier one, or None exactly when no user has that id. |
| RfidSystem.ToInt32 | RFIDSystem.h:44-45 | A size converted to `int` lies in the 32-bit range and is exact below 2^31. |
| RfidSystem.RFIDSystem.constructor | RFIDSystem.cpp:10-13 | Starts with no users and no statuses and establishes `Valid()`. Logs are empty when there is no file, and are the decoded logs when the file decodes. |
| RfidSystem.RFIDSystem.AddUser | RFIDSystem.cpp:24-28 | Appends exactly that user, even under a duplicate id, and sets that id's status to "OUT". Logs are unchanged and `Valid()` is kept. |
| RfidSystem.RFIDSystem.FindUser | RFIDSystem.cpp:30-37 | Returns the position of the first user with the id, or None. |
| RfidSystem.RFIDSystem.ScanRFID | RFIDSystem.cpp:39-58 | An unknown id fails and changes nothing. For a known id the status toggles and exactly one log is appended, with the id, the first matching user's name, the new status and the scan time. Users are unchanged and `Valid()` is kept, so the new log can be saved. |
| RfidSystem.RFIDSystem.SearchLogsByUserId | RFIDSystem.cpp:60-71 | The result is sorted by timestamp, a permutation of the logs with that id, and holds exactly the logs of that id. |
| RfidSystem.RFIDSystem.GetSortedLogs | RFIDSystem.cpp:73-77 | The result is sorted by timestamp and is a permutation of the log. The store is unchanged. |
| RfidSystem.RFIDSystem.SaveToBinaryFile | RFIDSystem.cpp:79-113 | On any store that keeps `Valid()`: fails exactly when the file cannot be opened, and otherwise writes `Encode(dailyLogs)`, which decodes back to `dailyLogs`. |
| RfidSystem.RFIDSystem.LoadFromBinaryFile | RFIDSystem.cpp:115-159 | Always succeeds. A file that cannot be opened leaves the logs as they are. A file that decodes replaces the logs with the decoded ones. Users and statuses are untouched, and `Valid()` is kept whatever the file holds. |
| RfidSystem.RFIDSystem.ExportToJson | RFIDSystem.cpp:186-222 | Fails exactly when the file cannot be opened. Otherwise the text is the document for some timestamp-sorted permutation of the logs, with `total_scans` equal to the log count. |
| RfidSystem.RFIDSystem.TallyLogs | RFIDSystem.cpp:262-268 | For every id, the count is the number of logs with that id and the last action is the action of the last such log in log order. |
| RfidSystem.RFIDSystem.DailyReport | RFIDSystem.cpp:276-284 | One row per user in registration order, with that user's log count and last action in log order, or "NONE". |
| RfidSystem.RFIDSystem.ClearDailyLogs | RFIDSystem.cpp:287-293 | Logs become empty and every existing status becomes "OUT". Users and the set of ids with a status are unchanged, and `Valid()` is kept. |
| RfidSystem.RFIDSystem.TotalScans | RFIDSystem.h:44 | The log count as an `int`. The store is unchanged. |
| RfidSystem.RFIDSystem.TotalUsers | RFIDSystem.h:45 | The user count as an `int`. The store is unchanged. |
| RfidSystem.ScanTwice | RFIDSystem.cpp:39-58 | On a valid store, two scans of a registered user restore the user's status and leave users and earlier logs unchanged. They append exactly two logs, with the user's id and name, the two scan times, and actions that are first the opposite status and then the original one. |
| RfidSystem.RegisterOne | RFIDSystem.cpp:24-28 | A fresh store with one registered user holds exactly that user, with status "OUT", no logs, and `Valid()`. |

## Left out

- Console output: the messages of every operation are not modelled. Neither are the table layouts of `displayAllLogs`, `displayUserStatus` and `displayDailyReport`. `DailyReport` returns the report's data instead of printing it.
- `displayAllLogs` and `displayUserStatus` compute nothing beyond `GetSortedLogs` and the fields. The extra map entry that `displayUserStatus`'s `operator[]` inserts for a user without a status is not modelled.
- `createDataDirectory` (RFIDSystem.cpp:15-22) is file-system plumbing and is not modelled.
- File streams are not modelled. Files are byte sequences or text values, and an unopenable file is an argument.
- The host clock and the locale are not modelled:
  - the scan time is the `now` parameter;
  - `getFormattedTime` is the `formatTime` parameter;
  - `getCurrentTimeString` is the `exportTime` parameter.
- The interactive shell (menu loop, `cin` recovery, confirmations) is not modelled. Only its `trim`, validators and role mapping are.
- `saveSystemData`, `loadSystemData`, `saveAllData`, `displayAllUsers` and `clearAllData` are declared in RFIDSystem.h but never defined, so they are not modelled.
- The header declares `exportToJSON()` but not `saveToBinaryFile`/`loadFromBinaryFile`. This mismatch is not reconciled; the bodies in RFIDSystem.cpp are what is modelled.
- LoadFromBinaryFile: what a truncated or corrupt file leaves in the logs is not specified, because the source reads past the end unchecked. The model stops at the first record that cannot be read.
- AddUser: requires the id and the name to be byte strings shorter than 2^64. A C++ `std::string` guarantees this; a Dafny string does not.
- ScanRFID: requires the scan time to fit a 64-bit `time_t` and the log to stay shorter than 2^64 entries. The C++ types guarantee both.
- SaveToBinaryFile: requires `Valid()`, which holds for every store the modelled operations build and carries the byte-string and 64-bit facts above.
- The byte layout is the one of a 64-bit little-endian host. Other `size_t` widths and byte orders are not modelled.
- Sorting: the relative order of logs with equal timestamps is not specified, as `std::sort` is not stable. `ExportToJson` therefore states its text for some sorted permutation.
- The ScanLog three-argument constructor is the `ScanLog` datatype constructor, and `ScanRFID` passes the clock reading as its fourth field.
- `isalnum`/`isalpha` are modelled as ASCII classification, which matches the "C" locale.
- Aliasing of the `User*` returned by `findUser` is not modelled. `FindUser` returns the user's position.
