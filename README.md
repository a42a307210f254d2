# mouselogrs statistics engine, modelled in Dafny

mouselogrs reads a mouse's raw Linux input events and keeps eleven cumulative
counters in a JSON statistics file. The counters are clicks of the left, right,
middle, side and extra buttons, wheel ticks up and down, and swipe distance in
dots to the right, left, up and down. This project models that engine.

- `Counters` (counters.dfy): the `Data` record and its buckets.
- `Db` (db.dfy): `Database` from src/db.rs. This covers how `modify` picks a
  counter and a delta for an event `(type, code, value)`. It covers the
  debounce: `modify` exports only when no export has happened yet, or when
  100 ms have passed since the last one. It covers the load policy of `new`:
  a missing or unreachable file is fatal, an unparseable one gives zero
  counters. It covers the unconditional export on `Drop`.
- `EventFilter` (event_filter.dfy): the skip test of src/main.rs, the call
  that forwards an event to `modify`, and a run of the loop over a finite
  sequence of decoded events.
- `InputCodes` (input_codes.dfy): the Linux constants, with the values of
  linux/input-event-codes.h, and the Rust integer widths.
- `Outcomes` (outcomes.dfy): `Option` and `Result`.

The class `Db.Database` has the Rust fields `data`, `path` and `last_export`.
The clock is not read. Each `Modify` gets the current time as an integer
number of milliseconds `now`. I/O is modelled by these fields:

- `file` (ghost): what the statistics file holds.
- `exportCount`: how many times the file has been written.
- `calls` (ghost): the times of the `modify` calls that completed.

`Valid()` ties `lastExport` and `exportCount` to `Exports(calls)`. That
function gives the export schedule for a sequence of call times.

The `unimplemented!()` panic of `modify` is the result `ok == false`, and no
state changes then. The three fatal paths of `new` (the `panic!()`s at src/db.rs:40 and 45, and the `unwrap` of `read_to_string` at src/db.rs:35) are `Err` results of `Open` and
`Load`. The file's contents are abstracted to `FileState`:
`Missing | Inaccessible | Unreadable | Malformed | Holds(d)`. An empty file, a
file missing a counter, and a file that is not JSON are all `Malformed`.

Three behaviours of the code are easy to misread, and the model keeps them:

- `modify` itself counts a button event of value 0 as a click. Only the
  filter in src/main.rs drops key releases. `Db.ButtonClick` and
  `EventFilter.ReleaseSkipped` state the two halves.
- The code trusts whatever the statistics file holds, so the counters are
  `int`, not `nat`. Non-negativity is proved for a start that is
  non-negative (`Db.ApplyKeepsNonNegative`, `EventFilter.IngestMonotone`).
- The filter checks kind and code separately. An `EV_KEY` press with code 1
  (`KEY_ESC`, numerically `REL_Y`) therefore passes it and reaches
  `unimplemented!()`. `EventFilter.ForwardedAbortsIffCrossed` and
  `EventFilter.CrossedExamples` state this.

## Model

| member | source | states |
|---|---|---|
| `Counters.Zero` | src/db.rs:59-61 | `Data::default()` has every one of the eleven counters at 0 |
| `Counters.Add` | src/db.rs:77-104 | one `+=` arm: the named bucket grows by exactly `delta`, and each of the other ten buckets is unchanged |
| `Db.Classify` | src/db.rs:73-107 | `modify` aborts exactly for an `EV_REL` code outside {X, Y, WHEEL} or an `EV_KEY` code outside the five buttons. It touches no counter exactly when the kind is neither. X/Y motion adds `abs(value)`; a wheel tick or a button adds 1 |
| `Db.Apply` | src/db.rs:71-107 | after a non-aborting event, each bucket equals its old value plus the gain the classification assigns to it, and no other change happens |
| `Db.XMotion` | src/db.rs:75-81 | `REL_X`: a value > 0 adds `value` to `swipe_right`; otherwise `-value` goes to `swipe_left`, so 0 adds 0 with no error |
| `Db.YMotion` | src/db.rs:82-88 | `REL_Y`: a value > 0 adds `value` to `swipe_down`; otherwise `-value` goes to `swipe_up` |
| `Db.WheelTick` | src/db.rs:89-95 | `REL_WHEEL`: exactly 1 goes to `wheel_up` if value > 0, else to `wheel_down`, whatever the magnitude |
| `Db.ButtonClick` | src/db.rs:98-106 | `EV_KEY` with one of the five button codes adds exactly 1 to that button's counter, whatever the value |
| `Db.ApplyTouchesAtMostOne` | src/db.rs:71-107 | one `modify` lowers no counter and changes at most one; an unknown kind changes none |
| `Db.ApplyKeepsNonNegative` | src/db.rs:71-107 | non-negative counters stay non-negative after a `modify` |
| `Db.ExportsSnoc` | src/db.rs:110-113 | a further call at `now` adds an export at `now` exactly when no export has happened or the last was at least 100 ms before; otherwise no export |
| `Db.ExportsSpaced` | src/db.rs:110-113 | any two exports by `modify` are at least 100 ms apart, whatever the clock does, so there is at most one per 100 ms window |
| `Db.FirstCallExports` | src/db.rs:110-112 | since a new store starts with `last_export = None`, its first completed `modify` always exports, at the time of that call |
| `Db.DueWindow` | src/db.rs:110 | the `is_none_or(... >= 100)` test: once an export is due it stays due at every later time, and for the 100 ms after an export at `t` (times `t <= u < t + 100`) no export is due |
| `Db.Exports` | src/db.rs:109-113 | the export schedule of a sequence of completed `modify` calls: every export happens at the time of some call, and a non-empty run of calls exports at least once |
| `Db.TwoQuickCalls` | src/db.rs:110-113 | two calls 10 ms apart on a new store produce one export, at the first call |
| `Db.Load` | src/db.rs:31-63 | a missing file, an error from the existence check, or a read error is fatal. An unparseable file gives all-zero counters. A parsed file gives its contents |
| `Db.Database.constructor` | src/db.rs:64-68 | a store holds the given counters and path, and has `last_export = None` with no calls or exports yet |
| `Db.Database.Open` | src/db.rs:31-69 | `Database::new` fails exactly when `Load` does, with the same error. Otherwise it gives a fresh valid store with `Load`'s counters, `last_export = None` and the file as found |
| `Db.Database.Export` | src/db.rs:116-120 | the file is overwritten with the current counters, so loading it gives them back, and the write count grows by one |
| `Db.Database.Tally` | src/db.rs:72-107 | the counter update of `modify` fails exactly at the `unimplemented!()` arms, with the counters unchanged. Otherwise the counters become `Apply(old, Classify(type, code, value))` |
| `Db.Database.Modify` | src/db.rs:71-114 | on an abort nothing changes. Otherwise the counters are updated as classified, even for an unknown kind. The store exports and `last_export := now` exactly when `Due(old last_export, now)`; else `last_export` and the file are unchanged |
| `Db.Database.Drop` | src/db.rs:123-127 | teardown exports unconditionally: afterwards the file holds exactly the in-memory counters, and loading it gives them back (in the shown `main` the loop never ends normally, so teardown is reached only by unwinding a panic; see "Left out") |
| `EventFilter.Skip` | src/main.rs:56-62 | a forwarded event never takes `modify`'s unknown-kind path, and its code is a known axis or button code |
| `EventFilter.UnknownKindSkipped` | src/main.rs:34-56 | an event whose kind is not `EV_REL` or `EV_KEY` is skipped |
| `EventFilter.UnknownCodeSkipped` | src/main.rs:37-57 | an event whose code is not one of the eight listed codes is skipped |
| `EventFilter.ReleaseSkipped` | src/main.rs:58-59 | an `EV_KEY` event of value 0 is skipped, even for a known button that `modify` would count |
| `EventFilter.PressForwarded` | src/main.rs:56-63 | a press of one of the five buttons is forwarded and counts exactly 1 |
| `EventFilter.ZeroMotionForwarded` | src/main.rs:56-63 | an `EV_REL` event of value 0 is forwarded: 0 dots to `swipe_left` or `swipe_up`, or one `wheel_down` tick |
| `EventFilter.ForwardedAbortsIffCrossed` | src/main.rs:56-63 | a forwarded event aborts `modify` exactly when it pairs a kind with a code of the other family |
| `EventFilter.CrossedExamples` | src/main.rs:37-57 | `EV_REL` with `BTN_LEFT`, and an `EV_KEY` press of code 1, both pass the filter and abort `modify` |
| `EventFilter.Step` | src/main.rs:56-63 | a skipped event leaves the counters alone. The loop aborts exactly on a forwarded event with a crossed code. No counter decreases |
| `EventFilter.Forward` | src/main.rs:56-63 | a skipped event changes nothing in the store. A forwarded one calls `modify` with the same kind, code and value, widened; the counters, the export time and the file then change as `Modify` states (the file holds the new counters when the export is due, and is unchanged otherwise) |
| `EventFilter.Ingest` | src/main.rs:51-64 | the counters after the loop handles a run of events in order; a run in which every event is skipped leaves them unchanged |
| `EventFilter.Total` | src/main.rs:51-64 | the sum of the deltas the forwarded events of a run assign to one bucket. It is 0 when every event is skipped, and for a click or wheel bucket it is at most the number of events |
| `EventFilter.IngestCountsTotals` | src/main.rs:51-64 | after a run of events with no abort, each counter equals its start plus the sum of the deltas classification assigns to it over the forwarded events |
| `EventFilter.IngestAbortsIffCrossed` | src/main.rs:51-64 | a run aborts exactly when some forwarded event has a code `modify` does not know for its kind |
| `EventFilter.IngestMonotone` | src/main.rs:51-64 | no counter decreases over a run, and non-negative counters stay non-negative |
| `EventFilter.LeftPressFromZero` | src/main.rs:56-63 | from fresh counters, one left-button press gives left = 1 and every other counter 0 |
| `EventFilter.PressReleasePressThenExit` | src/main.rs:49-63 | a press at `t`, a release at `t + 5` and a press at `t + 10`, then teardown, write the file exactly twice (the first press and `Drop`), and the store ends with two more left clicks |

## Left out

- The device file: `File::open`, `BufReader`, the `read_exact` loop and the unsafe reinterpretation of bytes as `input_event` (src/main.rs:28-32, 51-54, 65) are I/O. Events come in already decoded, and `Ingest` stands for the loop over a finite run.
- A read error in the loop is printed and the loop goes on (src/main.rs:65). This is not modelled.
- Command-line parsing with clap (src/main.rs:11-25) is left out. `dpi` is never used.
- JSON serialisation and deserialisation by serde_json are not modelled. Parsing is the abstract `FileState`, a write is `file := Holds(data)`, and the round trip of the serialiser is taken as given.
- The `Category::Data` test in `new` (src/db.rs:55) only chooses whether to print a message, so it is left out.
- Db.Database.Export: assumes `std::fs::write` succeeds. Its `unwrap` panic on a failed write is not modelled.
- All `println!` and `eprintln!` output is left out.
- The wall clock (`Instant::now`, `elapsed`) is replaced by the parameter `now`, in milliseconds. Rounding sub-millisecond time down in `as_millis` is not modelled. The source stamps `last_export` with `Instant::now()` after `export()` returns (src/db.rs:111-112), so its stamp trails the due test by the time the write takes. The model stamps the same `now` it tested.
- Db.Database.Modify: does not model `i64` overflow of a counter, because the counters are unbounded integers.
- Db.Database.Tally: accepts any `i64` value, as the Rust signature does, and takes its exact absolute value. For `value == i64::MIN`, Rust's `value.abs()` panics in a debug build and wraps in a release build, while the model adds 2^63. `main` never passes such a value, because the value is widened from an `i32`.
- The loop in src/main.rs:51-67 has no `break` or `return`, and its `Err` arm only prints. So `Drop` (src/db.rs:123-127) runs only while a panic unwinds, never when a signal such as SIGINT or SIGTERM kills the process. The teardown in `EventFilter.PressReleasePressThenExit` is a state the shown `main` reaches only through such a panic. Signals and process exit are not modelled.
- Db.Database.Export: is public in Rust, but only `modify` and `drop` call it in the shown code. A direct call from outside is not covered by `Valid()`, since it leaves `exportCount` above the debounce schedule.
- Db.Database.Modify: on an abort it returns `ok == false` and leaves the state unchanged. The unwinding that follows the panic, which also runs `Drop`, is not modelled.
