# A verified model of the cypat_v2 scoring engine core

cypat_v2 is a Rust library for CyberPatriot-style scoring. A program registers
*vulnerability conditions*: checks on a file, an installed application, a user,
or anything else. Each condition carries a predicate closure. An `Engine`
dispatches every registered predicate once per pass, stores whether each
condition is now completed, and keeps a *score ledger* of `(id, value, reason)`
entries that the predicates fill in. This project models three parts of the
library in Dafny and proves what their code promises:

- `Engine` in `src/engine.rs` (`engine.dfy`, with the ledger in `ledger.dfy`).
  The engine is a class. Its fields are the ledger (`score`), the condition
  registry (`vulns`), the run flags and the two frequency settings. Its methods
  change those fields in place, as the Rust methods do. Each ledger method is
  proved against a function on the ledger value: `Upserted` for `add_score`,
  `Removed` for `remove_score` and `IndexOf` for the lookups. The lemmas of
  module `Ledger` state what those functions guarantee, and `ScoringEngine.Engine.Valid`
  (ids pairwise distinct) is kept by every method.
- The passwd-line parser in `src/util/user.rs` (`passwd.dfy`): `parse_entry`
  and the two finders that scan a reader line by line.
- The legacy global score cell in `src/state.rs` (`state.dfy`).
- `ints.dfy` gives the fixed-width integer types. It also proves that Rust's
  `!` on an `i32` is `-x - 1`. `wrappers.dfy` holds `Option` and `Result`.

A predicate closure cannot be seen by the model. Each dispatch therefore takes
a `Reply` from the environment. A reply says whether the file of a file
condition could be opened, what the closure returns, and which calls it makes
back into the engine while it runs. Those calls are `add_score`,
`remove_score` and `stop(false)`. A Rust panic (an index out of bounds, an
`unwrap` of a failed parse) becomes an `Err` value.

Where a doc comment and the code disagree, the model follows the code:

- The doc comment of `update` (src/engine.rs:308-311) says completed conditions
  are re-run only on every `complete_freq`-th pass. The code calls
  `handle_vulnerability` in both arms of that test (src/engine.rs:320-324), so
  every entry is dispatched on every pass. The test is still evaluated, so a
  zero `complete_freq` panics once the registry is non-empty.
- `step_iter` is never incremented, and `Update` leaves it unchanged.
- A file condition holds only its path (src/engine.rs:89). Its predicate gets
  the file freshly opened, or nothing; there is no stored cursor.
- `sub_score(s)` adds `!s`, which is `-s - 1`. It therefore lowers the score
  by `s + 1`, and `State.ScoreCell.SubScore` states exactly that.

## Model

| member | source | states |
|---|---|---|
| ScoringEngine.Engine.constructor | src/engine.rs:109-119 | a new engine has an empty ledger and registry, is neither running nor executing, has `step_iter` 0, poll frequency 5 and review frequency 10, and satisfies the ledger invariant |
| ScoringEngine.Engine.AddVuln | src/engine.rs:121-126 | registration appends exactly one `(condition, false)` after every earlier entry, which stay untouched |
| ScoringEngine.Engine.AddFileVuln | src/engine.rs:135-141 | appends a not-completed file condition holding the path |
| ScoringEngine.Engine.AddAppVuln | src/engine.rs:150-161 | appends a not-completed app condition holding name and install method |
| ScoringEngine.Engine.AddUserVuln | src/engine.rs:170-180 | appends a not-completed user condition holding the user name |
| ScoringEngine.Engine.AddMiscVuln | src/engine.rs:189-194 | appends a not-completed miscellaneous condition |
| ScoringEngine.Engine.AddHook | src/engine.rs:201-210 | appends a miscellaneous condition whose closure yields `false` even when the hook answers `true` |
| ScoringEngine.Engine.SetFreq | src/engine.rs:217-219 | sets the poll frequency and nothing else |
| ScoringEngine.Engine.SetCompletedFreq | src/engine.rs:227-229 | sets the review frequency and nothing else |
| ScoringEngine.Engine.AddScore | src/engine.rs:235-250 | the scan overwrites the first entry with the id in place or pushes a new entry: the ledger becomes `Upserted(old, ...)`, and distinct ids stay distinct |
| Ledger.IndexOf | src/engine.rs:238-244 | the position found holds the id and no earlier position does; nothing is found exactly when no entry holds the id |
| Ledger.UpsertedSpec | src/engine.rs:235-250 | after an upsert the id is found with the new value and reason, at its old position or at the new end; every other entry keeps its position and contents; the length grows only for a fresh id; distinct ids stay distinct |
| Ledger.UpsertOther | src/engine.rs:235-250 | an upsert of one id leaves where any other id is found, and that entry, unchanged |
| Ledger.UpsertTotal | src/engine.rs:235-250 | an upsert changes the total by the new value minus the overwritten one, or by the new value for a fresh id |
| Ledger.LastWriteWins | src/engine.rs:235-250 | after any sequence of `add_score` calls on a ledger with distinct ids, each written id occurs exactly once and carries its last-written value and reason; an unwritten id is found where it was, unchanged |
| Ledger.UpsertsKeepPositions | src/engine.rs:235-250 | after any sequence of `add_score` calls every earlier entry keeps its position and id, so an id stays where it was first inserted |
| ScoringEngine.Engine.RemoveScore | src/engine.rs:253-267 | returns `Ok` exactly when the id is present, and the ledger becomes `Removed(old, id)` |
| Ledger.RemovedSpec | src/engine.rs:253-267 | for an absent id the ledger is unchanged; otherwise exactly the first entry with the id is removed and the others keep their relative order; with distinct ids the id is then gone and ids stay distinct |
| Ledger.RemoveTotal | src/engine.rs:253-267 | removing an entry lowers the total by its value; a failed removal leaves the total unchanged |
| Ledger.ReplayKeepsDistinct | src/engine.rs:235-267 | no sequence of `add_score` and `remove_score` calls gives one id two entries |
| ScoringEngine.Engine.GenerateScoreReport | src/engine.rs:271-284 | the report has the ledger's length and its i-th element is the reason and value of the i-th entry, in insertion order; the ledger is unchanged |
| ScoringEngine.Engine.CalcTotalScore | src/engine.rs:367-372 | the result is the sum of all values in the ledger, which is unchanged |
| ScoringEngine.Engine.GetEntry | src/engine.rs:375-388 | returns the first entry with the id, or `None` exactly when no entry holds it |
| ScoringEngine.Engine.EntryExists | src/engine.rs:391-404 | true exactly when some entry holds the id, which is exactly when `GetEntry` finds one |
| ScoringEngine.Engine.Stop | src/engine.rs:356-362 | the running flag is false afterwards |
| ScoringEngine.Engine.RunEffect | src/engine.rs:286-306 | one call a predicate makes back into the engine: `add_score` or `remove_score` changes the ledger as specified, `stop` clears the running flag |
| ScoringEngine.Engine.RunEffects | src/engine.rs:286-306 | the calls of one predicate, in order, leave the ledger as their replay and keep ids distinct; the engine stops exactly when one of them was `stop` |
| ScoringEngine.Engine.HandleVulnerability | src/engine.rs:286-306 | the predicate gets the argument for its condition kind, its calls into the engine take effect, and the entry's flag becomes what its closure returned |
| ScoringEngine.Engine.Sweep | src/engine.rs:317-328 | the loop of a pass: the registry becomes `Judge` of the old registry and the replies, the arguments handed out are `Dispatch` of the conditions, the ledger is the replay of every call the predicates made, in order, and the run flag drops exactly when one of them asked to stop |
| ScoringEngine.PassFlattens | src/engine.rs:319-325 | the ledger calls a pass makes, counted entry by entry, are every call its predicates make, flattened in dispatch order; the pass asks to stop exactly when one of those calls is a stop request |
| ScoringEngine.Engine.Update | src/engine.rs:312-331 | every entry is dispatched once, in order, whatever its flag, and the conditions stay; a hook entry is stored as not completed and any other entry's flag becomes its predicate's answer; a file predicate gets the open file or nothing, an app predicate its app data, a user predicate the user name and a miscellaneous one no argument; the ledger is the replay of all calls made during the pass; the run flag drops exactly when a predicate asked to stop; `in_execution` is false afterwards |
| ScoringEngine.JudgeConds | src/engine.rs:319-325 | a pass overwrites every flag, so what it stores depends only on the conditions and not on the previous flags |
| ScoringEngine.Engine.Tick | src/engine.rs:344-348 | one iteration of the run loop: the registry becomes `Judge` of the registry before it, which is also `Judge` of the registry at the start of the run; the ledger is the previous ledger replayed with this pass's calls, so the run's ledger so far extends by them; the run flag drops exactly when the pass asked to stop; `in_execution` is false; the pause after the pass panics exactly when the poll frequency is 0 |
| ScoringEngine.DispatchRunAt | src/engine.rs:344-348 | the `t`-th element of the run's log is the dispatch of pass `t` |
| ScoringEngine.NoneStopAt | src/engine.rs:344-348 | the run flag stays set after `n` passes exactly when none of them asked to stop |
| ScoringEngine.Engine.Enter | src/engine.rs:339-349 | passes run while the engine is running: every pass but the last had no stop request, and the loop ends after the first pass that asked to stop; pass `t` dispatched every condition as `Dispatch` of the conditions; the ledger is the old ledger replayed with the calls of every pass run, pass by pass; after at least one pass the registry is `Judge` of the old registry and the last pass, and `in_execution` is false; with a zero poll frequency exactly one pass runs before the pause panics |
| Passwd.SplitSpec | src/util/user.rs:60 | splitting on `:` yields colon-free pieces that join back to the line |
| Passwd.SplitJoin | src/util/user.rs:60 | splitting undoes joining colon-free pieces |
| Passwd.ParseDecimal | src/util/user.rs:65-66 | a `u32` written in decimal parses back to itself |
| Passwd.ParseEntrySpec | src/util/user.rs:59-71 | parsing succeeds exactly when there are at least seven fields and fields 2 and 3 are `u32` numbers; then the fields map to username, shadow flag (`field 1 == "x"`), uid, gid, gecos, home directory and shell |
| Passwd.ParsePanics | src/util/user.rs:59-71 | the panic names the first failing field in struct-literal order: a missing field 1, 2 or 3, a non-numeric field 2 or 3, or the first missing field among 4 to 6 |
| Passwd.RoundTrip | src/util/user.rs:59-71 | seven colon-free fields joined with `:`, with uid and gid in decimal, parse back to those fields |
| Passwd.TrailingFieldsIgnored | src/util/user.rs:59-71 | fields after the seventh do not change the parse |
| Passwd.ReadablePrefix | src/util/user.rs:78-86 | the lines read before the first read error, in order |
| Passwd.ReadErrorHidesRest | src/util/user.rs:85 | lines after a read error never reach the finders |
| Passwd.FindAndParseEntry | src/util/user.rs:74-90 | the result is `FindEntry` of the lines read before the first read error |
| Passwd.FindEntrySpec | src/util/user.rs:74-90 | nothing is found exactly when no line has `name` as its first field; otherwise the result is the parse of the first line that does, and a parsed entry has `name` as its username |
| Passwd.FindAndParseAll | src/util/user.rs:93-106 | the result collects the parse of each line read before the first read error |
| Passwd.CollectSpec | src/util/user.rs:93-106 | collecting succeeds exactly when every line parses, and then entry `j` is the parse of line `j`, in line order; otherwise the panic is that of the first line that does not parse |
| State.ScoreCell.constructor | src/state.rs:10-12 | the cell starts at 0 |
| State.ScoreCell.SetScore | src/state.rs:22-27 | the stored score becomes the argument, so a following `GetScore` returns it |
| State.ScoreCell.GetScore | src/state.rs:37-42 | returns the stored score and changes nothing |
| State.ScoreCell.AddScore | src/state.rs:54-62 | stores the old score plus the argument and returns the new score |
| Ints.BitNot | src/state.rs:64-66 | the bitwise complement of an `i32` is `-x - 1` |
| State.ScoreCell.SubScore | src/state.rs:64-66 | adds `!sub`, so it stores `old - sub - 1` and returns it |

## Left out

- Concurrency: the `Arc<Mutex<..>>` fields, the atomics' memory orderings and the `panic!` arms taken on a poisoned lock are not modelled. The engine runs on one thread, and its fields are plain state.
- State.ScoreCell.constructor: the global `Mutex<i32>` static becomes an object; the lock and the `ignore_poisoning` recovery paths of src/state.rs are not modelled.
- ScoringEngine.Engine.Stop: the spin-wait for a running pass when `blocking` is set is not modelled, because it only waits on another thread.
- ScoringEngine.Engine.Enter: the length of the sleep between passes (one second divided by the poll frequency, in `f32`) is not modelled; only the panic of `Duration::from_secs_f32` on the infinite quotient of a zero frequency is, as the `panicked` result after the first pass. It shares the precondition of `Update`: a zero `complete_freq` on a non-empty registry, which makes the first pass panic at src/engine.rs:320, is excluded rather than modelled. The environment supplies the replies for a finite script of passes, so the loop also ends when the script runs out.
- `File::open` inside `handle_vulnerability` is I/O. The reply's `fileOpens` says whether it succeeded; the file handle itself is not modelled.
- Predicate closures are opaque. Their calls back into the engine are limited to `add_score`, `remove_score` and `stop(false)`. Registration or `update` from inside a predicate would wait for the registry lock held by the pass, and `stop(true)` would spin forever because `in_execution` is set, so those calls are not modelled. The lookups made from inside a predicate are not modelled either; they change nothing. `set_completed_freq` and `set_freq` from inside a predicate are not modelled: `update` reloads `complete_freq` for every entry (src/engine.rs:320), so a zero set there would panic at the next entry of the same pass, and `enter` reloads `incomplete_freq` after the pass (src/engine.rs:347), so a zero set there would panic in the pause. The model takes both frequencies as fixed for the duration of a pass.
- A predicate that panics is not modelled: the unwind leaves the flags of the entries before it written and those after it unchanged, leaves `in_execution` set, and poisons the registry lock, so every later `update` panics at src/engine.rs:327. The model's replies always return.
- ScoringEngine.Engine.Update: a zero `complete_freq` makes the remainder in the review test panic. The model requires `complete_freq != 0` whenever the registry is non-empty, rather than returning an error.
- ScoringEngine.Engine.Sweep: the loop of `update` carries the same precondition as `Update`, `complete_freq != 0` on a non-empty registry; the remainder panic at src/engine.rs:320 is excluded rather than modelled.
- ScoringEngine.Engine.Tick: one pass of `enter` carries the same precondition as `Update`, `complete_freq != 0` on a non-empty registry; the remainder panic at src/engine.rs:320 is excluded rather than modelled.
- ScoringEngine.Engine.CalcTotalScore: the `i32` fold panics on overflow in a debug build and wraps in a release build. The model requires every partial sum to fit in an `i32`.
- State.ScoreCell.AddScore: the `i32` addition must not overflow (a debug-build panic). It is a precondition here.
- State.ScoreCell.SubScore: the same overflow rule applies to `old - sub - 1`.
- The reader of the passwd finders is a sequence of lines, where `None` is a read error. Splitting a byte stream into lines and decoding UTF-8 (an invalid line is a read error) are not modelled.
- Passwd.ParseEntry: the text of the panic message is not modelled; the `Panic` value records only which index failed and how.
- The FFI and OS-query parts of src/util/user.rs (`get_entry_from_passwd`, the group lookups, `user_exists`, `group_exists`, `user_is_in_group`, `user_is_admin`) are libc, WinAPI and subprocess calls. src/util/filesystem.rs, src/util/program.rs and src/filesystem.rs are OS and configuration wrappers. src/lib.rs, src/util/mod.rs and src/scorer.rs hold only declarations. None of these is part of this model.
