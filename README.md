# ESP32 status ingestion of the aquatemp API, in Dafny

The aquatemp API bridges a temperature controller (an ESP32 with a heater and a pump) to a
Supabase store. The controller publishes status lines such as

    Suhu: 32.5 C, Mode: Auto, Min: 30, Max: 40, Durasi Heater: 120s, Durasi Pompa: 60s

on the MQTT topic `iot/device/status`. The bridge parses each line into a partial record
(`parseESP32Data`). It then inserts one row into each of the tables `sensor_data`,
`temperature_setting`, `heater_status` and `riwayat` whose fields are all present
(`saveToDatabase`). Every row is tagged with the device's fixed user id.

This project models that pipeline and proves what it promises:

- `regex.dfy` (module `Regex`) models the six `String.prototype.match` calls. It defines
  the leftmost-position, greedy-run search (`Find`) and a separate reference semantics of a
  backtracking regex engine (`Matches`, `Preferred`, `LeftmostCapture`). It proves the two
  agree and that the engine's answer is unique.
- `esp32_parser.dfy` (module `Esp32Parser`) models `parseESP32Data`. Each field is null
  exactly when its own pattern is absent. The whole record is null exactly when no
  temperature is present. The mode is case-sensitive and lower-cased. The durations are
  exact naturals. The documented example line parses to 32.5/"auto"/30/40/120/60.
- `persistence.dfy` (module `Persistence`) models the store as a class whose field `log`
  lists every insert issued, oldest first. `SaveToDatabase` appends to it. `Dispatch` is
  the decision table it follows, and the lemmas about `Dispatch` state which tables get a
  row, in which order, with which fields and which tag. The module also models `getUserId`.
- `mqtt_bridge.dfy` (module `MqttBridge`) models the `message` handler. Only the status
  topic is parsed, and only a parsed reading is stored.

Temperature, `Min` and `Max` go through `parseFloat` in the source. Here they are kept as
the captured digit-and-dot lexeme. `parseFloat` never returns `null` (a lexeme such as `.`
gives `NaN`, which is not `null`), so every null test in `saveToDatabase` comes out the same
as in the source.

## Model

| member | source | states |
|---|---|---|
| `Regex.RunEnd` | index.js:86 | the greedy `[\d.]+` / `\d+` run: every character up to the end is in the class, and the next one is not |
| `Regex.FirstMatch` | index.js:86-91 | the first position from which the pattern can be matched; no earlier position can |
| `Regex.Find` | index.js:86-91 | `data.match(re)[1]`: a run capture is non-empty and all in its class; an alternation capture is one of its alternatives |
| `Regex.CaptureAtCorrect` | index.js:86-91 | trying a pattern at one position yields the engine's preferred match there (longest run, first alternative), and no capture means no match there |
| `Regex.FindCorrect` | index.js:86-91 | `Find` is null exactly when the pattern matches nowhere; otherwise it is the preferred capture at the leftmost matching position |
| `Regex.LeftmostCaptureUnique` | index.js:86-91 | the regex engine's leftmost preferred capture is unique |
| `Regex.FindIffLeftmostCapture` | index.js:86-91 | `Find` returns a string exactly when that string is the engine's leftmost preferred capture |
| `Esp32Parser.ParseEsp32Data` | index.js:84-108 | a non-null result always has a non-empty digit/dot temperature lexeme; mode is null, "auto" or "off"; min and max lexemes are non-empty digit/dot runs |
| `Esp32Parser.ParseNullIffNoTemperature` | index.js:86-103 | null exactly when `Suhu: ` + digit/dot run + ` C` matches nowhere; otherwise the temperature is the leftmost capture |
| `Esp32Parser.ParseMode` | index.js:87-96 | mode is "auto" / "off" exactly when the first mode token is `Auto` / `Off`, and null exactly when neither token occurs |
| `Esp32Parser.ToLowerCase` | index.js:96 | `.toLowerCase()`: same length, no upper-case letter left, an upper-case ASCII letter becomes its lower-case partner, every other character is kept |
| `Esp32Parser.ToLowerCaseIdempotent` | index.js:96 | lower-casing twice is the same as once |
| `Esp32Parser.ModeTokensLowered` | index.js:96 | lower-casing turns `Auto` into "auto" and `Off` into "off" |
| `Esp32Parser.ModeIsCaseSensitive` | index.js:87-96 | a line with `Mode: auto` parses with a null mode |
| `Esp32Parser.ParseSetpoints` | index.js:88-98 | min and max are each their own pattern's leftmost capture, and null exactly when that pattern matches nowhere |
| `Esp32Parser.ParseDurations` | index.js:90-100 | each duration is `parseInt` of its own leftmost `\d+` capture before `s` (every leftmost capture gives the value, and a present value comes from one), and null exactly when that pattern matches nowhere |
| `Esp32Parser.ParseInt` | index.js:99-100 | `parseInt` of a `\d+` capture of k digits is a natural number below 10^k |
| `Esp32Parser.DecimalString` | index.js:99-100 | the reference inverse of `parseInt`, used to show it exact: the decimal rendering of a natural number is a non-empty run of digits |
| `Esp32Parser.ParseIntInvertsDecimalString` | index.js:99-100 | `parseInt` of the decimal rendering of n is n: durations are exact naturals |
| `Esp32Parser.TemperatureOnly` | index.js:86-103 | a line with only a temperature parses to a record whose five other fields are null |
| `Esp32Parser.ExampleLineParses` | index.js:75 | the documented line parses to 32.5 / "auto" / 30 / 40 / 120 / 60 |
| `Persistence.Store.Insert` | index.js:115-118 | an insert appends exactly its row to the store's log |
| `Persistence.GetUserId` | index.js:168-170 | the result is never empty, and is either the caller's id or the device's sentinel |
| `Persistence.GetUserIdTruthy` | index.js:165-170 | a non-empty id is kept; a missing or empty id becomes `00000000-0000-0000-0000-000000000000` |
| `Persistence.GetUserIdIdempotent` | index.js:168-170 | applying the default twice is the same as once |
| `Persistence.Dispatch` | index.js:114-145 | the decision table `saveToDatabase` follows: at most four rows, all tagged with the sentinel |
| `Persistence.SaveToDatabase` | index.js:111-151 | the log grows by exactly the rows of the decision table, in order; nothing else changes |
| `Persistence.DispatchDecisions` | index.js:114-145 | a row goes to each table iff its fields are all non-null, with those fields unchanged and the sentinel tag, tables in fixed order and at most once each |
| `Persistence.DispatchTagsAndOrder` | index.js:114-145 | every row carries the sentinel tag, and tables are inserted in the fixed order, no table name twice |
| `Persistence.DispatchMembers` | index.js:114-145 | a row goes to a table exactly when that table's fields are all non-null, and carries those fields unchanged |
| `Persistence.DispatchCount` | index.js:114-145 | a reading with a temperature gives 1 to 4 inserts, and 4 exactly when all six fields are present |
| `Persistence.DispatchComplete` | index.js:114-145 | a reading with all six fields gives the four rows, into `sensor_data`, `temperature_setting`, `heater_status`, `riwayat` in that order |
| `Persistence.MinWithoutMax` | index.js:122-128 | `Min` without `Max` skips `temperature_setting` and changes no other insert |
| `Persistence.ExampleLineDispatch` | index.js:75 | the documented line is stored as exactly four rows with its values |
| `MqttBridge.MessageRows` | index.js:69-81 | the rows one message leads to: at most four, and none unless the topic is `iot/device/status` and the line parses |
| `MqttBridge.OnMessage` | index.js:69-81 | the log grows by exactly the rows the message leads to |
| `MqttBridge.MessageInsertsIff` | index.js:69-81 | a message causes inserts iff it is on `iot/device/status` and holds a temperature; at most four, all with the sentinel tag |
| `MqttBridge.ControlTopicIgnored` | index.js:69-81 | a message on `iot/device/control` is never stored |
| `MqttBridge.TemperatureOnlyMessage` | index.js:69-81 | a status message with only a temperature gives exactly one `sensor_data` row |
| `MqttBridge.ExampleMessage` | index.js:75-78 | the documented line on the status topic gives exactly four inserts |

## Left out

- MQTT client construction, the fallback stand-in object, and the connect, subscribe, error,
  offline and reconnect handlers (index.js:14-66): these are transport plumbing and logging.
- Publishing commands on `iot/device/control` (index.js:154-162): this is a network call. Only
  the topic constant is modelled.
- The Express endpoints (index.js:173-313) and `/api/health` (index.js:316-330). They are thin
  wrappers over store queries whose filtering and ordering happen inside Supabase, or they read
  the environment and the clock.
- `parseFloat` (index.js:95-98) is floating point. Temperature, `Min` and `Max` stay as
  lexemes. A lexeme like `1.2.3` would be read as 1.2 by `parseFloat`; that conversion is not
  modelled.
- `Esp32Parser.ParseInt`: does not model the loss of precision of `parseInt` on digit strings
  above 2^53. The durations are exact naturals here.
- `Esp32Parser.ToLowerCase`: lowers ASCII letters only. These are the only letters the mode
  pattern can capture.
- The parser's `try/catch` (index.js:85, 104-107) is not modelled. `match` with a literal
  regex on a string does not throw, so that branch cannot be reached.
- `saveToDatabase`'s `try/catch` and the store's answers (index.js:112, 148-150). The
  Supabase client reports a failed insert in its return value, which the source never
  inspects. So the model issues every insert whatever happened to the previous one. An
  exception thrown by the client would skip the remaining inserts; that is not modelled.
- `async`/`await` scheduling, the `created_at` timestamps the store assigns, and the store's
  contents beyond the log of inserts.
- `Buffer.toString()` decoding of the MQTT payload: topic and message are modelled as
  strings.
- `Persistence.GetUserId`: only models a missing id or a string id. Other falsy JSON values a
  request could carry (`0`, `false`) are not modelled.
- Logging (`console.log` / `console.error`).
