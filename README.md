# zellij-tab-status in Dafny

A model of the core of `zellij-tab-status`, a Zellij plugin that puts a status
(an emoji, or any first grapheme cluster) in front of a tab's name. It covers:

- **StatusUtils** (`src/status_utils.rs`, repeated in `src/main.rs:231-261`):
  the codec that splits a tab name into a status and a base name.
- **Graphemes**: the first-cluster split that the codec takes from the
  `unicode_segmentation` crate. It covers a subset of the extended grapheme
  cluster rules of Unicode Standard Annex #29: controls and CR LF (GB3-GB5),
  extenders (GB9), joiner sequences that start with a pictograph (GB11), and
  flags (GB12/GB13).
- **PipeHandler** (`src/pipe_handler.rs`): the `tab-rename` and `tab-status`
  handlers. Each takes the pane-to-tab cache and a decoded payload and
  returns the host effects (`RenameTab`, `PipeOutput`) together with the
  updated cache. Also modelled here: pane id parsing as Rust's
  `u32::from_str`, and the `serde` decoding of the two payload records, from
  a JSON object or, by position, from a JSON array.
- **Plugin** (`src/main.rs`): the `State` class. `update` replaces the tab
  list or the pane manifest and rebuilds the cache. `rebuild_mapping` refills
  the cache in two nested loops. `pipe` routes a message to a handler and
  stores the cache that comes back.
- **Probing** (`src/probing.rs`): the probe timer step, as a `ProbingState`
  class and a `HandleProbeTimer` method. The method is specified by a pure
  `TimerStep` over the counters, which are u32 values.
- **BlinkRuntime** (`src/blink_runtime.rs`): the frame-rotation scheduler.
  It is a class holding `map<uint32, BlinkTabState>` and the global pause
  instant. Time is only a `nowMs` argument, and u64 saturating arithmetic is
  written out in **BoundedInts**.

Wrappers holds the `Option` datatype.

## Model

| member | source | states |
|---|---|---|
| Graphemes.FirstCluster | src/status_utils.rs:13-14 | the first grapheme cluster: none exactly for the empty name, otherwise a non-empty prefix of it |
| Graphemes.FirstClusterIsCluster | src/status_utils.rs:32-37 | the first cluster of a non-empty name is itself exactly one cluster |
| Graphemes.ClusterEndsBeforeSpace | src/status_utils.rs:31-36 | a cluster followed by a space is split off alone, so the cluster boundary falls right before that space |
| StatusUtils.HasStatus | src/status_utils.rs:14-16 | a name has a status only when it starts with one whole cluster followed by a space (RoundTrip gives the converse) |
| StatusUtils.ExtractBaseName | src/status_utils.rs:12-21 | always a suffix of the name; with a status, what follows the single space after the first cluster; otherwise the whole name |
| StatusUtils.ExtractStatus | src/status_utils.rs:31-40 | a prefix of the name; non-empty exactly when the first cluster is followed by a space, and then that cluster |
| StatusUtils.Reconstruction | src/status_utils.rs:12-40 | a name with a status is status + " " + base name; without one, the base name is the name |
| StatusUtils.RoundTrip | src/status_utils.rs:12-40 | for any cluster g and any text b, g + " " + b has status g and base name b |
| StatusUtils.EmptyName | src/status_utils.rs:85-87 | the empty name has no status and an empty base name |
| StatusUtils.LoneClusterIsBaseName | src/status_utils.rs:90-94 | a name that is a single cluster has no status and is its own base name |
| StatusUtils.StripsOneLayer | src/status_utils.rs:78-82 | a status applied twice loses only one layer |
| StatusUtils.RobotExample | src/status_utils.rs:98-103 | the robot emoji in front of "Working" is the status; "Working" is the base |
| StatusUtils.FlagExample | src/status_utils.rs:48-53 | the two-code-point US flag is one status in front of "USA" |
| StatusUtils.LetterExample | src/status_utils.rs:63-67 | a letter followed by a space is a status: "A Tab" gives "A" and "Tab" |
| StatusUtils.NoSpaceExamples | src/status_utils.rs:70-75 | "Working" and "!Alert" have no status and keep their whole name |
| StatusUtils.RepeatedAndLoneExamples | src/status_utils.rs:78-93 | "! ! Tab" has base name "! Tab"; "X" has base name "X" |
| StatusUtils.JoinerSequenceExample | src/status_utils.rs:31-40 | the ZWJ sequence "man technologist" is one status in front of "Code" |
| StatusUtils.NoJoinAfterLetterOrControl | src/status_utils.rs:31-40 | a joiner after a letter, or a combining mark after a newline, ends the first cluster early, so neither name has a status |
| PipeHandler.DecodeRename | src/pipe_handler.rs:14-19 | an object decodes exactly when pane_id and name are string fields, and yields those strings; an array decodes exactly when it holds two strings, in field order |
| PipeHandler.DecodeStatus | src/pipe_handler.rs:20-27 | an object decodes exactly when pane_id and action are strings and emoji is absent or a string, an absent emoji giving ""; an array decodes exactly when it holds two or three strings in field order, a missing third giving "" |
| PipeHandler.ParsePaneId | src/pipe_handler.rs:31-42 | accepts only an optional '+' followed by at least one decimal digit |
| PipeHandler.ParsePrintedPaneId | src/pipe_handler.rs:31-42 | every u32 printed in decimal parses back to itself |
| PipeHandler.TabId | src/pipe_handler.rs:142 | the tab id is position + 1 (as a u32 cast, wrapping only past 2^32 - 1) |
| PipeHandler.GetTabInfo | src/pipe_handler.rs:44-61 | none exactly for a pane the cache lacks, otherwise its cached entry |
| PipeHandler.UpdateCachedName | src/pipe_handler.rs:63-67 | only the given pane's name changes; its position, every other pane and an absent pane stay as they were |
| PipeHandler.ResolveFindsCachedPane | src/pipe_handler.rs:83-95 | a pane id resolves exactly when it parses and get_tab_info finds the pane, and then to that pane's cached entry |
| PipeHandler.HandleRename | src/pipe_handler.rs:69-111 | at most one effect, always a RenameTab to position + 1 of a cached pane with the cache updated for it; no effect leaves the cache unchanged |
| PipeHandler.HandleStatus | src/pipe_handler.rs:113-198 | at most one effect; PipeOutput goes to the caller's pipe and leaves the cache alone; RenameTab goes to position + 1 with the cache updated; no effect leaves the cache unchanged |
| PipeHandler.StatusAction | src/pipe_handler.rs:140-197 | on a found pane, every action keeps the handler invariants: at most one effect, output only to the caller's pipe, renames only of that pane's tab |
| PipeHandler.Dispatch | src/pipe_handler.rs:113-141 | a payload that decodes and whose pane is found is handled by its action on that pane |
| PipeHandler.StatusFailures | src/pipe_handler.rs:113-198 | missing or undecodable payload, bad pane id, unknown pane, unknown action, or set_status without emoji: no effect, cache unchanged |
| PipeHandler.RenameFailures | src/pipe_handler.rs:69-96 | the same failures of handle_rename yield no effect and leave the cache unchanged |
| PipeHandler.RenameResolved | src/pipe_handler.rs:69-111 | a resolved rename emits one RenameTab with the name verbatim, and the cache then holds that name |
| PipeHandler.SetStatus | src/pipe_handler.rs:145-161 | set_status emits one RenameTab to "emoji base" over the old base name and caches that name |
| PipeHandler.ClearStatus | src/pipe_handler.rs:162-174 | clear_status always renames to the base name and caches it, even with no status |
| PipeHandler.Queries | src/pipe_handler.rs:175-189 | get_status and get_name answer once on the caller's pipe and leave the cache unchanged |
| PipeHandler.SetThenGet | src/pipe_handler.rs:145-189 | after set_status with a one-cluster emoji, get_status answers that emoji and get_name the old base name: the status is replaced, not stacked |
| PipeHandler.SetThenClear | src/pipe_handler.rs:145-174 | clear_status after set_status restores the old base name, in the effect and in the cache |
| PipeHandler.RobotStatusExample | src/pipe_handler.rs:218-233 | the robot set_status on pane 1 of "Work" at position 0 renames tab 1 to "<robot> Work" and caches that name |
| PipeHandler.MissingEmojiExample | src/pipe_handler.rs:571-581 | set_status without an emoji field decodes with "" and changes nothing |
| PipeHandler.ArrayPayloadExample | src/pipe_handler.rs:175-189 | the array payload ["1", "get_name"] is read by position and answers "Work" |
| Plugin.InsertPanes | src/main.rs:268-277 | inserting one tab's panes keeps every earlier key, and each entry is either kept or that tab's entry |
| Plugin.Mapping | src/main.rs:263-287 | every mapped pane points at a position the manifest lists panes under |
| Plugin.InsertPanesEffect | src/main.rs:268-277 | inserting one tab's pane list maps exactly its non-plugin panes to that tab's entry and keeps the rest |
| Plugin.MappingKeys | src/main.rs:263-287 | a pane is mapped after a rebuild exactly when it is a non-plugin pane listed under the position of some tab; panes under a position with no tab are not mapped |
| Plugin.MappingValue | src/main.rs:266-277 | a mapped pane holds (position, name) of the last tab it is listed under, using the tab's position and not its index |
| Plugin.SiblingsShareEntry | src/main.rs:268-277 | when each pane is listed under one tab, all non-plugin panes of a tab map to the same entry |
| Plugin.PluginPanesNeverMapped | src/main.rs:270-272 | a pane listed only as a plugin pane is never mapped |
| Plugin.State.constructor | src/main.rs:20-30 | the default state is empty |
| Plugin.State.RebuildMapping | src/main.rs:263-287 | the cache becomes the mapping of the current tabs and panes, dropping earlier entries; tabs and panes are untouched |
| Plugin.State.Update | src/main.rs:45-60 | TabUpdate replaces only the tabs, PaneUpdate only the panes, and both rebuild; other events change nothing; never asks to render |
| Plugin.State.Pipe | src/main.rs:62-73 | "tab-rename" and "tab-status" get their handler's effects and cache; any other pipe does nothing; never asks to render |
| Probing.TimerStep | src/probing.rs:52-97 | Ignore exactly when not restoring and nothing remains, and then nothing changes; Retry exactly while restore retries stay below 5, with only the count raised; AdvanceProbe carries the new candidate; Fallback only past 3 x tab count |
| Probing.ForcedAdvance | src/probing.rs:53-69 | the retry that reaches 5 clears restoring, resets the count and advances the candidate, falling back exactly past 3 x tab count with tabs remaining |
| Probing.GapAdvance | src/probing.rs:77-96 | a gap advances the candidate by one, falling back exactly when it passes 3 x tab count |
| Probing.GapSearchEnds | src/probing.rs:85-96 | with no answers, the probe advances one index per firing up to 3 x tab count, then falls back |
| Probing.StuckRestoreGivesUp | src/probing.rs:53-75 | a restore that never completes gets Retry until the fifth firing, which forces an advance or a fallback |
| Probing.ProbingState.constructor | src/probing.rs:24-34 | candidate 1, nothing found, every tab remaining, not restoring, no retries |
| Probing.HandleProbeTimer | src/probing.rs:52-97 | the new counters and the result are those of TimerStep; the saved names and found mappings are untouched |
| BoundedInts.SaturatingAdd | src/blink_runtime.rs:57 | the sum, or the largest u64 when the sum does not fit |
| BoundedInts.SaturatingSub | src/blink_runtime.rs:95 | the difference, or 0 when it would be negative |
| BoundedInts.SaturatingMul | src/blink_runtime.rs:122 | the product, or the largest u64 when the product does not fit |
| BlinkRuntime.NormalizeDelayMs | src/blink_runtime.rs:28-33 | no delay or a zero delay gives 500; any other delay is kept |
| BlinkRuntime.NormalizeIdempotent | src/blink_runtime.rs:28-33 | normalising a normalised delay changes nothing |
| BlinkRuntime.StartedTab | src/blink_runtime.rs:44-60 | a started tab is at frame 0 with the given frames and base name; its delay is the given one, or 1 for 0; its next tick is now + delay, or the largest u64 when that does not fit; it is paused since now iff the runtime is paused |
| BlinkRuntime.Steps | src/blink_runtime.rs:118 | a due tab has missed at least one tick |
| BlinkRuntime.StepsCountsMissedTicks | src/blink_runtime.rs:118 | steps is the number of scheduled ticks next, next + delay, ... that are not later than now |
| BlinkRuntime.Advanced | src/blink_runtime.rs:118-122 | a tick moves the frame on by steps modulo the frame count, and the next tick by delay x steps, or to the largest u64 when that does not fit; frames, base name, delay and pause mark are kept |
| BlinkRuntime.AdvancedFiresAfterNow | src/blink_runtime.rs:118-122 | after a tick the next one is later than now, unless it saturated at the largest u64 |
| BlinkRuntime.Render | src/blink_runtime.rs:124-128 | when the frame is one cluster, the shown name reads back as status = the frame and base name = the tab's base name |
| BlinkRuntime.PausedTab | src/blink_runtime.rs:79-83 | a pause marks an unmarked tab as paused now, leaves a marked tab as it is, and changes nothing else |
| BlinkRuntime.ResumedTab | src/blink_runtime.rs:91-97 | a resume clears the mark and moves the next tick later by the time paused, pinned at the largest u64 when that sum overflows, and by 0 for a mark in the future; an unmarked tab is unchanged |
| BlinkRuntime.Wait | src/blink_runtime.rs:146-152 | 1 ms for a tab already due, otherwise exactly the time to its next tick |
| BlinkRuntime.PauseResumeShifts | src/blink_runtime.rs:73-98 | a pause at p and a resume at t shift the next tick by t - p and change nothing else, so frame order is kept |
| BlinkRuntime.StartedDuringPause | src/blink_runtime.rs:306-332 | a tab started during a pause fires one delay after the resume |
| BlinkRuntime.PauseIdempotent | src/blink_runtime.rs:73-84 | pausing a paused tab again changes nothing |
| BlinkRuntime.RotationExample | src/blink_runtime.rs:183-216 | three frames at 500 ms started at 0: nothing at 499, frame 1 at 500, frame 2 at 1000 |
| BlinkRuntime.PauseResumeExample | src/blink_runtime.rs:281-304 | paused from 100 to 1000, the first tick moves from 500 to 1400 and shows the second frame |
| BlinkRuntime.TickedTabs | src/blink_runtime.rs:100-138 | after a tick exactly the tabs with a position remain, well formed, with frames, base name and pause mark kept |
| BlinkRuntime.InsertByIndex | src/blink_runtime.rs:136 | inserting a command adds exactly that command to the multiset of commands |
| BlinkRuntime.InsertSorted | src/blink_runtime.rs:136 | insertion keeps the commands sorted by tab index |
| BlinkRuntime.InsertDistinct | src/blink_runtime.rs:136 | inserting a command for a new tab keeps the tab indices distinct |
| BlinkRuntime.SortByTabIndex | src/blink_runtime.rs:136 | the output is sorted by tab index and is a permutation of the input |
| BlinkRuntime.SortedTickCommands | src/blink_runtime.rs:132-136 | sorting the collected commands gives one command per due tab with a position, in strictly increasing tab index |
| BlinkRuntime.DropStaleGivesTicked | src/blink_runtime.rs:132-134 | removing the tabs without a position after the first pass leaves exactly the ticked tabs |
| BlinkRuntime.BlinkRuntime.constructor | src/blink_runtime.rs:22-26 | no tabs and not paused |
| BlinkRuntime.BlinkRuntime.Start | src/blink_runtime.rs:36-61 | fewer than two frames removes the tab; otherwise the tab gets the started state; the invariant is kept |
| BlinkRuntime.BlinkRuntime.Stop | src/blink_runtime.rs:63-65 | removes that tab and nothing else |
| BlinkRuntime.BlinkRuntime.UpdateBaseName | src/blink_runtime.rs:67-71 | changes only the base name of an existing tab; an unknown tab changes nothing |
| BlinkRuntime.BlinkRuntime.Pause | src/blink_runtime.rs:73-84 | a second pause changes nothing; the first marks the runtime and every tab as paused now |
| BlinkRuntime.BlinkRuntime.Resume | src/blink_runtime.rs:86-98 | a resume without a pause changes nothing; otherwise every tab's next tick moves back by its paused time and the pause ends |
| BlinkRuntime.BlinkRuntime.Tick | src/blink_runtime.rs:100-138 | while paused: no commands and no change; otherwise the tabs become the ticked tabs and the output is one command per due tab with a position, sorted by tab index |
| BlinkRuntime.BlinkRuntime.AdvanceDueTabs | src/blink_runtime.rs:108-130 | the first pass of a tick advances every due tab with a position, collects one command each and lists the tabs without a position |
| BlinkRuntime.BlinkRuntime.RemoveTabs | src/blink_runtime.rs:132-134 | removes the listed tabs and nothing else |
| BlinkRuntime.BlinkRuntime.NextDelayMs | src/blink_runtime.rs:140-155 | none while paused or with no tabs; otherwise the smallest wait over all tabs |
| BlinkRuntime.BlinkRuntime.RetainActiveTabIndices | src/blink_runtime.rs:157-160 | keeps exactly the blinking tabs whose index is listed |

The class invariant `BlinkRuntime.BlinkRuntime.Valid` is preserved by every
runtime method. It says: every tab has at least two frames, a delay of at
least 1 ms, a current frame in range and a next tick after 0; and a tab
carries a pause mark exactly when the runtime is paused.

## Left out

- JSON text is not lexed. A payload is `Missing`, `Malformed` (neither an object nor an array), an object with its fields, or an array of values. The decoders model how a derived `serde` struct reads them: unknown fields are ignored, `emoji` has a default, a wrong field type is an error, and an array is read by position. A JSON object that repeats a key (which `serde` rejects as a duplicate field) cannot be written as a map and is not modelled.
- Graphemes.FirstCluster: a subset of the Unicode extended grapheme cluster rules. It omits Hangul syllable sequences (GB6-GB8), SpacingMark (GB9a) and Prepend (GB9b), so it splits such sequences where the annex joins them. The Control class is limited to C0, DEL, C1 and U+2028/U+2029, so format characters such as U+200B count as ordinary characters. The Extend and Extended_Pictographic classes are approximated by the character blocks listed in Graphemes.dfy. The codec proofs use FirstCluster's contract, `FirstClusterIsCluster` and `ClusterEndsBeforeSpace`. The last one holds for this subset; under the full annex it fails only after a Prepend character.
- Host calls are effects or are left out: `rename_tab`, `cli_pipe_output`, `unblock_cli_pipe_input`, `request_permission`, `subscribe`, `render`, and `eprintln!` logging. `PipeOutput` stands for the output call; the unblock that follows it is not modelled.
- `src/main.rs` has its own copies of `handle_rename`, `handle_status`, `parse_pane_id`, `get_tab_info`, `update_cached_name` and the `extract_*` helpers (lines 79-261). They do what the `src/pipe_handler.rs` and `src/status_utils.rs` versions do, but call the host directly. `Plugin.State.Pipe` routes to the effect-returning handlers. It answers on the "tab-status" pipe, as the `src/main.rs` copy does.
- PipeHandler.HandleRename, PipeHandler.HandleStatus: the cache goes in and comes back out as a value. The in-place update of a borrowed `BTreeMap` (no other reference to it exists) is not modelled.
- The zellij `TabInfo` and `PaneManifest` types are reduced to (position, name) and (id, is plugin).
- Probing.HandleProbeTimer: requires that no u32 increment overflows and that 3 x tab count fits a u32 (`NoOverflow`). The Rust code panics in those cases in debug builds, and wraps silently in release builds. The requirement applies even on the Retry and Ignore paths, which do not increment the candidate.
- The probe protocol around the timer step (marker scanning, handling TabUpdate during probing, the `found` list) is not part of the core files and is not modelled.
- BlinkRuntime.Advanced: `steps as usize` and `current_frame + steps` are computed on unbounded integers. The model does not show the truncation of a u64 `steps` to a 32-bit usize, nor a usize overflow of the sum. `steps` is bounded by the elapsed milliseconds divided by the delay, so either one needs more than 2^32 missed ticks between two calls.
- Real timers, and the loop that calls `tick` and `next_delay_ms`, are left out: `nowMs` is an argument. `HashMap` iteration order is nondeterministic in the model (`:|` over the key set). Tick's output does not depend on it, because it is sorted.
- PipeHandler.TabId: positions from 2^32 - 1 upward wrap, as the Rust `as u32` cast does. No lemma states anything about them.
