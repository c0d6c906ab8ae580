/**
 * The blink runtime: for each tab index that blinks, a rotation through its
 * status frames on a fixed delay, paused and resumed as a whole. Time is only
 * ever an argument (`nowMs`), so all of it is integer scheduling arithmetic on
 * u64 milliseconds.
 */
module BlinkRuntime {
  import opened Wrappers
  import opened BoundedInts
  import opened Graphemes
  import opened StatusUtils

  const DEFAULT_BLINK_DELAY_MS: uint64 := 500

  /** A rename the caller should issue: tab `tabPosition` (index `tabIndex`) to `name`. */
  datatype BlinkCommand = BlinkCommand(tabIndex: uint32, tabPosition: nat, name: string)

  /** The blink state of one tab. */
  datatype BlinkTabState = BlinkTabState(
    frames: seq<string>,
    baseName: string,
    currentFrame: nat,
    delayMs: uint64,
    nextTickMs: uint64,
    pausedSinceMs: Option<uint64>)

  /** `normalize_delay_ms`: no delay, or a zero one, means the 500 ms default. */
  function NormalizeDelayMs(delayMs: Option<uint64>): (r: uint64)
    ensures r > 0
    ensures delayMs.Some? && delayMs.value > 0 ==> r == delayMs.value
    ensures (delayMs.None? || delayMs.value == 0) ==> r == DEFAULT_BLINK_DELAY_MS
  {
    match delayMs
    case None => DEFAULT_BLINK_DELAY_MS
    case Some(v) => if v == 0 then DEFAULT_BLINK_DELAY_MS else v
  }

  /** Normalising twice is normalising once. */
  lemma NormalizeIdempotent(delayMs: Option<uint64>)
    ensures NormalizeDelayMs(Some(NormalizeDelayMs(delayMs))) == NormalizeDelayMs(delayMs)
  {
  }

  /** What every stored tab satisfies. */
  predicate WellFormed(st: BlinkTabState) {
    && |st.frames| >= 2
    && st.delayMs >= 1
    && st.currentFrame < |st.frames|
    && st.nextTickMs >= 1
  }

  function Max(a: uint64, b: uint64): uint64 {
    if a >= b then a else b
  }

  /**
   * The state `start` installs: the first frame, a delay of at least 1 ms, the
   * first tick one delay from now (saturating), and marked as paused now when
   * the runtime is paused.
   */
  function StartedTab(baseName: string, frames: seq<string>, delayMs: uint64, nowMs: uint64,
                      paused: bool): (st: BlinkTabState)
    requires |frames| >= 2
    ensures WellFormed(st)
    ensures st.frames == frames && st.baseName == baseName && st.currentFrame == 0
    ensures delayMs >= 1 ==> st.delayMs == delayMs
    ensures delayMs == 0 ==> st.delayMs == 1
    ensures nowMs + st.delayMs <= UINT64_MAX ==> st.nextTickMs == nowMs + st.delayMs
    ensures nowMs + st.delayMs > UINT64_MAX ==> st.nextTickMs == UINT64_MAX
    ensures st.pausedSinceMs == if paused then Some(nowMs) else None
  {
    var delay := Max(delayMs, 1);
    BlinkTabState(frames, baseName, 0, delay, SaturatingAdd(nowMs, delay),
                  if paused then Some(nowMs) else None)
  }

  /** The tab's tick is due at `nowMs`. */
  predicate Due(st: BlinkTabState, nowMs: uint64) {
    nowMs >= st.nextTickMs
  }

  /** Multiplying by a positive number does not make a natural number smaller. */
  lemma {:induction false} MulAtLeast(q: nat, d: nat)
    requires d >= 1
    ensures q * d >= q
  {
    if d > 1 {
      MulAtLeast(q, d - 1);
      assert q * d == q * (d - 1) + q;
    }
  }

  /** Dividing by a positive number does not make a natural number larger. */
  lemma DivisionShrinks(a: nat, d: nat)
    requires d >= 1
    ensures a / d <= a
  {
    var q, r := a / d, a % d;
    assert a == q * d + r && 0 <= r;
    MulAtLeast(q, d);
  }

  /**
   * How many ticks a due tab has missed, counting the one due now; it fits a
   * u64 because the next tick is never at 0.
   */
  function Steps(st: BlinkTabState, nowMs: uint64): (steps: uint64)
    requires WellFormed(st) && Due(st, nowMs)
    ensures steps >= 1
  {
    DivisionShrinks(nowMs - st.nextTickMs, st.delayMs);
    (nowMs - st.nextTickMs) / st.delayMs + 1
  }

  /**
   * The missed ticks are exactly the scheduled ones (at nextTick,
   * nextTick + delay, ...) that are not later than now.
   */
  lemma StepsCountsMissedTicks(st: BlinkTabState, nowMs: uint64)
    requires WellFormed(st) && Due(st, nowMs)
    ensures var steps := Steps(st, nowMs);
            st.nextTickMs + st.delayMs * (steps - 1) <= nowMs < st.nextTickMs + st.delayMs * steps
  {
    var elapsed := nowMs - st.nextTickMs;
    var q := elapsed / st.delayMs;
    assert elapsed == q * st.delayMs + elapsed % st.delayMs;
    assert q * st.delayMs <= elapsed < (q + 1) * st.delayMs;
  }

  /**
   * A due tab after its tick: the frame moves on by the number of missed
   * ticks, and the schedule by as many delays, saturating at the largest u64.
   */
  function Advanced(st: BlinkTabState, nowMs: uint64): (r: BlinkTabState)
    requires WellFormed(st) && Due(st, nowMs)
    ensures WellFormed(r)
    ensures r == st.(currentFrame := r.currentFrame, nextTickMs := r.nextTickMs)
    ensures r.currentFrame == (st.currentFrame + Steps(st, nowMs)) % |st.frames|
    ensures var later := st.nextTickMs + st.delayMs * Steps(st, nowMs);
            && (later <= UINT64_MAX ==> r.nextTickMs == later)
            && (later > UINT64_MAX ==> r.nextTickMs == UINT64_MAX)
  {
    var steps := Steps(st, nowMs);
    MulAtLeast(steps, st.delayMs);
    st.(currentFrame := (st.currentFrame + steps) % |st.frames|,
        nextTickMs := SaturatingAdd(st.nextTickMs, SaturatingMul(st.delayMs, steps)))
  }

  /**
   * After a tick the next one lies after now, unless the schedule saturated
   * at the largest u64; a tab is never due twice for the same instant.
   */
  lemma AdvancedFiresAfterNow(st: BlinkTabState, nowMs: uint64)
    requires WellFormed(st) && Due(st, nowMs)
    ensures var r := Advanced(st, nowMs);
            (r.nextTickMs > nowMs && !Due(r, nowMs)) || r.nextTickMs == UINT64_MAX
  {
    StepsCountsMissedTicks(st, nowMs);
    var steps := Steps(st, nowMs);
    if st.delayMs * steps <= UINT64_MAX && st.nextTickMs + st.delayMs * steps <= UINT64_MAX {
      assert Advanced(st, nowMs).nextTickMs == st.nextTickMs + st.delayMs * steps;
    }
  }

  /**
   * The name a tab shows: its current frame, a space, its base name. A frame
   * that is one cluster reads back as the tab's status, and the base name as
   * its base name.
   */
  function Render(st: BlinkTabState): (name: string)
    requires st.currentFrame < |st.frames|
    ensures IsCluster(st.frames[st.currentFrame]) ==>
              ExtractStatus(name) == st.frames[st.currentFrame] && ExtractBaseName(name) == st.baseName
  {
    var frame := st.frames[st.currentFrame];
    assert IsCluster(frame) ==>
             ExtractStatus(frame + " " + st.baseName) == frame
             && ExtractBaseName(frame + " " + st.baseName) == st.baseName by {
      if IsCluster(frame) { RoundTrip(frame, st.baseName); }
    }
    frame + " " + st.baseName
  }

  /** A tab after `pause`: marked as paused now, unless already marked. */
  function PausedTab(st: BlinkTabState, nowMs: uint64): (r: BlinkTabState)
    ensures r == st.(pausedSinceMs := r.pausedSinceMs) && r.pausedSinceMs.Some?
    ensures st.pausedSinceMs.Some? ==> r == st
    ensures st.pausedSinceMs.None? ==> r.pausedSinceMs == Some(nowMs)
  {
    if st.pausedSinceMs.None? then st.(pausedSinceMs := Some(nowMs)) else st
  }

  /** A tab after `resume`: its next tick is pushed back by the time it was paused. */
  function ResumedTab(st: BlinkTabState, nowMs: uint64): (r: BlinkTabState)
    ensures r == st.(nextTickMs := r.nextTickMs, pausedSinceMs := None)
    ensures r.nextTickMs >= st.nextTickMs
    ensures st.pausedSinceMs.None? ==> r == st
    ensures st.pausedSinceMs.Some? && st.pausedSinceMs.value <= nowMs
            && st.nextTickMs + (nowMs - st.pausedSinceMs.value) <= UINT64_MAX
            ==> r.nextTickMs == st.nextTickMs + (nowMs - st.pausedSinceMs.value)
    ensures st.pausedSinceMs.Some? && st.pausedSinceMs.value <= nowMs
            && st.nextTickMs + (nowMs - st.pausedSinceMs.value) > UINT64_MAX
            ==> r.nextTickMs == UINT64_MAX
    ensures st.pausedSinceMs.Some? && st.pausedSinceMs.value > nowMs ==> r.nextTickMs == st.nextTickMs
  {
    match st.pausedSinceMs
    case None => st
    case Some(since) =>
      st.(nextTickMs := SaturatingAdd(st.nextTickMs, SaturatingSub(nowMs, since)),
          pausedSinceMs := None)
  }

  /** The wait until a tab's next tick: 1 ms for a tab that is already due. */
  function Wait(st: BlinkTabState, nowMs: uint64): (w: uint64)
    ensures w >= 1
    ensures st.nextTickMs > nowMs ==> nowMs + w == st.nextTickMs
    ensures st.nextTickMs <= nowMs ==> w == 1
  {
    if st.nextTickMs <= nowMs then 1 else st.nextTickMs - nowMs
  }

  /**
   * A pause from `p` and a resume at `t` keep the frame and shift the next
   * tick by exactly the paused time, so the wait left at the pause is the
   * wait left at the resume.
   */
  lemma PauseResumeShifts(st: BlinkTabState, p: uint64, t: uint64)
    requires st.pausedSinceMs.None? && p <= t
    requires st.nextTickMs + (t - p) <= UINT64_MAX
    ensures var r := ResumedTab(PausedTab(st, p), t);
            && r == st.(nextTickMs := st.nextTickMs + (t - p))
            && r.nextTickMs - t == st.nextTickMs - p
  {
  }

  /** A tab started during a pause fires one delay after the resume. */
  lemma StartedDuringPause(baseName: string, frames: seq<string>, delayMs: uint64, s: uint64, t: uint64)
    requires |frames| >= 2 && delayMs >= 1 && s <= t
    requires t + delayMs <= UINT64_MAX
    ensures ResumedTab(StartedTab(baseName, frames, delayMs, s, true), t).nextTickMs == t + delayMs
  {
  }

  /** Pausing a paused tab again changes nothing. */
  lemma PauseIdempotent(st: BlinkTabState, a: uint64, b: uint64)
    ensures PausedTab(PausedTab(st, a), b) == PausedTab(st, a)
  {
  }

  /**
   * Three frames on a 500 ms delay started at 0: not due at 499, the second
   * frame at 500, the third at 1000.
   */
  lemma RotationExample(frames: seq<string>)
    requires |frames| == 3
    ensures var st := StartedTab("Build", frames, 500, 0, false);
            && !Due(st, 499)
            && Advanced(st, 500).currentFrame == 1
            && Advanced(Advanced(st, 500), 1000).currentFrame == 2
            && Render(Advanced(st, 500)) == frames[1] + " Build"
  {
    var st := StartedTab("Build", frames, 500, 0, false);
    assert Steps(st, 500) == 1;
    assert Steps(Advanced(st, 500), 1000) == 1;
  }

  /**
   * Two frames on a 500 ms delay started at 0, paused from 100 to 1000: the
   * first tick moves from 500 to 1400, and it shows the second frame.
   */
  lemma PauseResumeExample(frames: seq<string>)
    requires |frames| == 2
    ensures var st := ResumedTab(PausedTab(StartedTab("Pause", frames, 500, 0, false), 100), 1000);
            && !Due(st, 1399) && Due(st, 1400)
            && Advanced(st, 1400).currentFrame == 1
            && Render(Advanced(st, 1400)) == frames[1] + " Pause"
  {
    var st := ResumedTab(PausedTab(StartedTab("Pause", frames, 500, 0, false), 100), 1000);
    assert st.nextTickMs == 1400;
    assert Steps(st, 1400) == 1;
  }

  // ---------------------------------------------------------------------------
  // Whole-runtime specifications

  ghost predicate AllWellFormed(tabs: map<uint32, BlinkTabState>) {
    forall k | k in tabs :: WellFormed(tabs[k])
  }

  /** The tabs after a tick: only tabs that still have a position, due ones advanced. */
  function TickedTabs(tabs: map<uint32, BlinkTabState>, positions: map<uint32, nat>, nowMs: uint64)
    : (r: map<uint32, BlinkTabState>)
    requires AllWellFormed(tabs)
    ensures AllWellFormed(r)
    ensures forall k :: k in r <==> k in tabs && k in positions
    ensures forall k | k in r :: r[k].frames == tabs[k].frames && r[k].baseName == tabs[k].baseName
                                 && r[k].pausedSinceMs == tabs[k].pausedSinceMs
  {
    map k | k in tabs && k in positions ::
      if Due(tabs[k], nowMs) then Advanced(tabs[k], nowMs) else tabs[k]
  }

  /** The command a tick at `nowMs` emits for tab `k`: its position and its advanced name. */
  function TickCommandFor(tabs: map<uint32, BlinkTabState>, positions: map<uint32, nat>,
                          nowMs: uint64, k: uint32): BlinkCommand
    requires AllWellFormed(tabs) && k in tabs && k in positions && Due(tabs[k], nowMs)
  {
    BlinkCommand(k, positions[k], Render(Advanced(tabs[k], nowMs)))
  }

  /** `c` is the command a tick at `nowMs` emits for its tab. */
  ghost predicate IsTickCommand(tabs: map<uint32, BlinkTabState>, positions: map<uint32, nat>,
                                nowMs: uint64, c: BlinkCommand)
    requires AllWellFormed(tabs)
  {
    && c.tabIndex in tabs && c.tabIndex in positions
    && Due(tabs[c.tabIndex], nowMs)
    && c == TickCommandFor(tabs, positions, nowMs, c.tabIndex)
  }

  ghost predicate HasCommandFor(cmds: seq<BlinkCommand>, k: uint32) {
    exists i | 0 <= i < |cmds| :: cmds[i].tabIndex == k
  }

  /** Appending a command keeps every command already there. */
  lemma AppendKeepsCommands(cmds: seq<BlinkCommand>, c: BlinkCommand)
    ensures forall k | HasCommandFor(cmds, k) :: HasCommandFor(cmds + [c], k)
    ensures HasCommandFor(cmds + [c], c.tabIndex)
  {
    assert (cmds + [c])[|cmds|] == c;
    forall k | HasCommandFor(cmds, k) ensures HasCommandFor(cmds + [c], k) {
      var i :| 0 <= i < |cmds| && cmds[i].tabIndex == k;
      assert (cmds + [c])[i] == cmds[i];
    }
  }

  ghost predicate DistinctIndices(cmds: seq<BlinkCommand>) {
    forall i, j | 0 <= i < j < |cmds| :: cmds[i].tabIndex != cmds[j].tabIndex
  }

  ghost predicate SortedByIndex(cmds: seq<BlinkCommand>) {
    forall i, j | 0 <= i < j < |cmds| :: cmds[i].tabIndex <= cmds[j].tabIndex
  }

  /**
   * The tabs once the first pass of a tick has visited the tabs in `done`:
   * each visited due tab that has a position advanced, the others untouched.
   */
  function PartlyTicked(tabs: map<uint32, BlinkTabState>, positions: map<uint32, nat>, nowMs: uint64,
                        done: set<uint32>): (r: map<uint32, BlinkTabState>)
    requires AllWellFormed(tabs)
    ensures r.Keys == tabs.Keys
  {
    map k | k in tabs ::
      if k in done && k in positions && Due(tabs[k], nowMs) then Advanced(tabs[k], nowMs) else tabs[k]
  }

  /** Visiting one more tab advances exactly that tab, when it is due and has a position. */
  lemma TickOneMore(tabs: map<uint32, BlinkTabState>, positions: map<uint32, nat>, nowMs: uint64,
                    done: set<uint32>, k: uint32)
    requires AllWellFormed(tabs) && k in tabs && k !in done
    ensures k in positions && Due(tabs[k], nowMs) ==>
              PartlyTicked(tabs, positions, nowMs, done + {k})
                == PartlyTicked(tabs, positions, nowMs, done)[k := Advanced(tabs[k], nowMs)]
    ensures !(k in positions && Due(tabs[k], nowMs)) ==>
              PartlyTicked(tabs, positions, nowMs, done + {k}) == PartlyTicked(tabs, positions, nowMs, done)
  {
  }

  /** Every command in `cmds` is the tick command of a tab in `done`. */
  ghost predicate CommandsFrom(tabs: map<uint32, BlinkTabState>, positions: map<uint32, nat>,
                               nowMs: uint64, done: set<uint32>, cmds: seq<BlinkCommand>)
    requires AllWellFormed(tabs)
  {
    forall i | 0 <= i < |cmds| :: cmds[i].tabIndex in done && IsTickCommand(tabs, positions, nowMs, cmds[i])
  }

  /** Every due tab in `done` that has a position has a command in `cmds`. */
  ghost predicate CommandsCover(tabs: map<uint32, BlinkTabState>, positions: map<uint32, nat>,
                                nowMs: uint64, done: set<uint32>, cmds: seq<BlinkCommand>)
    requires AllWellFormed(tabs)
  {
    forall k | k in done && k in tabs && k in positions && Due(tabs[k], nowMs) :: HasCommandFor(cmds, k)
  }

  /**
   * The commands of a tick in any order: each is the command of a due tab
   * that has a position, every such tab has one, and no tab has two.
   */
  ghost predicate TickCommands(tabs: map<uint32, BlinkTabState>, positions: map<uint32, nat>,
                               nowMs: uint64, cmds: seq<BlinkCommand>)
    requires AllWellFormed(tabs)
  {
    && CommandsFrom(tabs, positions, nowMs, tabs.Keys, cmds)
    && CommandsCover(tabs, positions, nowMs, tabs.Keys, cmds)
    && DistinctIndices(cmds)
  }

  /** The output of a tick: its commands, in strictly increasing tab index. */
  ghost predicate IsTickOutput(tabs: map<uint32, BlinkTabState>, positions: map<uint32, nat>,
                               nowMs: uint64, cmds: seq<BlinkCommand>)
    requires AllWellFormed(tabs)
  {
    && (forall i, j | 0 <= i < j < |cmds| :: cmds[i].tabIndex < cmds[j].tabIndex)
    && TickCommands(tabs, positions, nowMs, cmds)
  }

  /** Visiting tab `k` keeps `CommandsFrom`, with its command appended when it is due. */
  lemma CollectFrom(tabs: map<uint32, BlinkTabState>, positions: map<uint32, nat>, nowMs: uint64,
                    done: set<uint32>, cmds: seq<BlinkCommand>, k: uint32)
    requires AllWellFormed(tabs) && CommandsFrom(tabs, positions, nowMs, done, cmds)
    ensures CommandsFrom(tabs, positions, nowMs, done + {k}, cmds)
    ensures k in tabs && k in positions && Due(tabs[k], nowMs) ==>
              CommandsFrom(tabs, positions, nowMs, done + {k}, cmds + [TickCommandFor(tabs, positions, nowMs, k)])
  {
    if k in tabs && k in positions && Due(tabs[k], nowMs) {
      var next := cmds + [TickCommandFor(tabs, positions, nowMs, k)];
      forall i | 0 <= i < |next|
        ensures next[i].tabIndex in done + {k} && IsTickCommand(tabs, positions, nowMs, next[i])
      {
        if i < |cmds| {
          assert next[i] == cmds[i];
        }
      }
    }
  }

  /** Visiting tab `k` keeps `CommandsCover`, provided its command is appended when it is due. */
  lemma CollectCover(tabs: map<uint32, BlinkTabState>, positions: map<uint32, nat>, nowMs: uint64,
                     done: set<uint32>, cmds: seq<BlinkCommand>, k: uint32)
    requires AllWellFormed(tabs) && CommandsCover(tabs, positions, nowMs, done, cmds)
    ensures !(k in tabs && k in positions && Due(tabs[k], nowMs)) ==>
              CommandsCover(tabs, positions, nowMs, done + {k}, cmds)
    ensures k in tabs && k in positions && Due(tabs[k], nowMs) ==>
              CommandsCover(tabs, positions, nowMs, done + {k}, cmds + [TickCommandFor(tabs, positions, nowMs, k)])
  {
    if k in tabs && k in positions && Due(tabs[k], nowMs) {
      AppendKeepsCommands(cmds, TickCommandFor(tabs, positions, nowMs, k));
    }
  }

  /** Appending a command for a tab that has none keeps the tab indices distinct. */
  lemma AppendDistinct(cmds: seq<BlinkCommand>, c: BlinkCommand)
    requires DistinctIndices(cmds)
    requires forall i | 0 <= i < |cmds| :: cmds[i].tabIndex != c.tabIndex
    ensures DistinctIndices(cmds + [c])
  {
  }

  /** Dropping the tabs without a position after the first pass leaves the ticked tabs. */
  lemma DropStaleGivesTicked(orig: map<uint32, BlinkTabState>, ticked: map<uint32, BlinkTabState>,
                             final: map<uint32, BlinkTabState>, stale: seq<uint32>,
                             positions: map<uint32, nat>, nowMs: uint64)
    requires AllWellFormed(orig) && ticked == PartlyTicked(orig, positions, nowMs, orig.Keys)
    requires forall k :: k in stale <==> k in orig && k !in positions
    requires forall k :: k in final <==> k in ticked && k !in stale
    requires forall k | k in final :: final[k] == ticked[k]
    ensures final == TickedTabs(orig, positions, nowMs)
  {
    assert final.Keys == TickedTabs(orig, positions, nowMs).Keys;
  }

  /** Sorting the commands of a tick by tab index gives the output of the tick. */
  lemma SortedTickCommands(tabs: map<uint32, BlinkTabState>, positions: map<uint32, nat>, nowMs: uint64,
                           cmds: seq<BlinkCommand>, sorted: seq<BlinkCommand>)
    requires AllWellFormed(tabs) && TickCommands(tabs, positions, nowMs, cmds)
    requires SortedByIndex(sorted) && DistinctIndices(sorted) && multiset(sorted) == multiset(cmds)
    ensures IsTickOutput(tabs, positions, nowMs, sorted)
  {
    forall i | 0 <= i < |sorted| ensures IsTickCommand(tabs, positions, nowMs, sorted[i]) {
      assert sorted[i] in multiset(cmds);
    }
    forall k | k in tabs && k in positions && Due(tabs[k], nowMs) ensures HasCommandFor(sorted, k) {
      var i :| 0 <= i < |cmds| && cmds[i].tabIndex == k;
      assert cmds[i] in multiset(sorted);
    }
  }

  /** Inserts `c` after every command whose tab index is not larger. */
  function InsertByIndex(s: seq<BlinkCommand>, c: BlinkCommand): (r: seq<BlinkCommand>)
    ensures multiset(r) == multiset(s) + multiset{c}
  {
    if s == [] || c.tabIndex < s[0].tabIndex then [c] + s
    else
      assert s == [s[0]] + s[1..];
      [s[0]] + InsertByIndex(s[1..], c)
  }

  /** Every command of an insertion is `c` or was already there. */
  lemma InsertedFrom(s: seq<BlinkCommand>, c: BlinkCommand, x: BlinkCommand)
    requires x in InsertByIndex(s, c)
    ensures x in s || x == c
  {
    assert x in multiset(InsertByIndex(s, c));
  }

  /** Insertion keeps a sorted sequence sorted. */
  lemma {:induction false} InsertSorted(s: seq<BlinkCommand>, c: BlinkCommand)
    requires SortedByIndex(s)
    ensures SortedByIndex(InsertByIndex(s, c))
  {
    if s == [] || c.tabIndex < s[0].tabIndex {
    } else {
      var rest := InsertByIndex(s[1..], c);
      InsertSorted(s[1..], c);
      forall x | x in rest ensures s[0].tabIndex <= x.tabIndex {
        InsertedFrom(s[1..], c, x);
      }
    }
  }

  /** Inserting a command with a new tab index keeps the tab indices distinct. */
  lemma {:induction false} InsertDistinct(s: seq<BlinkCommand>, c: BlinkCommand)
    requires DistinctIndices(s) && forall x | x in s :: x.tabIndex != c.tabIndex
    ensures DistinctIndices(InsertByIndex(s, c))
  {
    if s == [] || c.tabIndex < s[0].tabIndex {
    } else {
      var rest := InsertByIndex(s[1..], c);
      InsertDistinct(s[1..], c);
      forall x | x in rest ensures s[0].tabIndex != x.tabIndex {
        InsertedFrom(s[1..], c, x);
      }
    }
  }

  /** `sort_by_key(|cmd| cmd.tab_index)`: a sorted permutation. */
  method SortByTabIndex(cmds: seq<BlinkCommand>) returns (sorted: seq<BlinkCommand>)
    ensures SortedByIndex(sorted)
    ensures multiset(sorted) == multiset(cmds)
    ensures DistinctIndices(cmds) ==> DistinctIndices(sorted)
  {
    sorted := [];
    for i := 0 to |cmds|
      invariant SortedByIndex(sorted)
      invariant multiset(sorted) == multiset(cmds[..i])
      invariant DistinctIndices(cmds) ==> DistinctIndices(sorted)
    {
      assert cmds[..i + 1] == cmds[..i] + [cmds[i]];
      if DistinctIndices(cmds) {
        forall x | x in sorted ensures x.tabIndex != cmds[i].tabIndex {
          assert x in multiset(cmds[..i]);
          var j :| 0 <= j < i && cmds[j] == x;
        }
        InsertDistinct(sorted, cmds[i]);
      }
      InsertSorted(sorted, cmds[i]);
      sorted := InsertByIndex(sorted, cmds[i]);
    }
    assert cmds[..|cmds|] == cmds;
  }

  // ---------------------------------------------------------------------------
  // The runtime

  class BlinkRuntime {
    var tabs: map<uint32, BlinkTabState>
    var pausedAtMs: Option<uint64>

    /**
     * Every stored tab is well formed, and a tab carries a pause mark exactly
     * when the runtime is paused.
     */
    ghost predicate Valid()
      reads this
    {
      && AllWellFormed(tabs)
      && forall k | k in tabs :: tabs[k].pausedSinceMs.Some? == pausedAtMs.Some?
    }

    constructor ()
      ensures Valid() && tabs == map[] && pausedAtMs == None
    {
      tabs := map[];
      pausedAtMs := None;
    }

    /**
     * `start`: fewer than two frames stops the tab; otherwise the tab gets a
     * fresh state from its first frame.
     */
    method Start(tabIndex: uint32, baseName: string, frames: seq<string>, delayMs: uint64, nowMs: uint64)
      requires Valid()
      modifies this`tabs
      ensures Valid()
      ensures |frames| < 2 ==> tabs == old(tabs) - {tabIndex}
      ensures |frames| >= 2 ==>
                tabs == old(tabs)[tabIndex := StartedTab(baseName, frames, delayMs, nowMs, pausedAtMs.Some?)]
    {
      if |frames| < 2 {
        tabs := tabs - {tabIndex};
        return;
      }
      tabs := tabs[tabIndex := StartedTab(baseName, frames, delayMs, nowMs, pausedAtMs.Some?)];
    }

    /** `stop`: removes that tab and nothing else. */
    method Stop(tabIndex: uint32)
      requires Valid()
      modifies this`tabs
      ensures Valid()
      ensures tabs == old(tabs) - {tabIndex}
    {
      tabs := tabs - {tabIndex};
    }

    /** `update_base_name`: changes the base name of that tab, if it blinks, and nothing else. */
    method UpdateBaseName(tabIndex: uint32, baseName: string)
      requires Valid()
      modifies this`tabs
      ensures Valid()
      ensures tabIndex in old(tabs) ==> tabs == old(tabs)[tabIndex := old(tabs)[tabIndex].(baseName := baseName)]
      ensures tabIndex !in old(tabs) ==> tabs == old(tabs)
    {
      if tabIndex in tabs {
        tabs := tabs[tabIndex := tabs[tabIndex].(baseName := baseName)];
      }
    }

    /** `pause`: idempotent; the first call marks the runtime and every tab as paused now. */
    method Pause(nowMs: uint64)
      requires Valid()
      modifies this
      ensures Valid()
      ensures old(pausedAtMs).Some? ==> pausedAtMs == old(pausedAtMs) && tabs == old(tabs)
      ensures old(pausedAtMs).None? ==> pausedAtMs == Some(nowMs)
      ensures old(pausedAtMs).None? ==>
                tabs == map k | k in old(tabs) :: PausedTab(old(tabs)[k], nowMs)
    {
      if pausedAtMs.Some? {
        return;
      }
      pausedAtMs := Some(nowMs);
      ghost var orig := tabs;
      var pending := tabs.Keys;
      while pending != {}
        invariant pausedAtMs == Some(nowMs)
        invariant pending <= orig.Keys && tabs.Keys == orig.Keys
        invariant forall k | k in tabs :: tabs[k] == if k in pending then orig[k] else PausedTab(orig[k], nowMs)
        decreases pending
      {
        var k :| k in pending;
        var state := tabs[k];
        if state.pausedSinceMs.None? {
          tabs := tabs[k := state.(pausedSinceMs := Some(nowMs))];
        }
        pending := pending - {k};
      }
    }

    /**
     * `resume`: a no-op unless paused; otherwise clears the pause and pushes
     * each paused tab's next tick back by the time it was paused.
     */
    method Resume(nowMs: uint64)
      requires Valid()
      modifies this
      ensures Valid()
      ensures pausedAtMs.None?
      ensures old(pausedAtMs).None? ==> tabs == old(tabs)
      ensures old(pausedAtMs).Some? ==>
                tabs == map k | k in old(tabs) :: ResumedTab(old(tabs)[k], nowMs)
    {
      if pausedAtMs.None? {
        return;
      }
      pausedAtMs := None;
      ghost var orig := tabs;
      assert forall k | k in orig :: orig[k].pausedSinceMs.Some?;
      var pending := tabs.Keys;
      while pending != {}
        invariant pausedAtMs.None?
        invariant pending <= orig.Keys && tabs.Keys == orig.Keys
        invariant forall k | k in tabs :: tabs[k] == if k in pending then orig[k] else ResumedTab(orig[k], nowMs)
        decreases pending
      {
        var k :| k in pending;
        var state := tabs[k];
        if state.pausedSinceMs.Some? {
          var since := state.pausedSinceMs.value;
          tabs := tabs[k := state.(nextTickMs := SaturatingAdd(state.nextTickMs, SaturatingSub(nowMs, since)),
                                   pausedSinceMs := None)];
        }
        pending := pending - {k};
      }
    }

    /**
     * `tick`: nothing while paused. Otherwise every tab without a position is
     * dropped, every due tab advances by its missed ticks and emits one
     * command, and the commands come out sorted by tab index.
     */
    method Tick(nowMs: uint64, tabPositions: map<uint32, nat>) returns (commands: seq<BlinkCommand>)
      requires Valid()
      modifies this`tabs
      ensures Valid()
      ensures pausedAtMs.Some? ==> commands == [] && tabs == old(tabs)
      ensures pausedAtMs.None? ==> tabs == TickedTabs(old(tabs), tabPositions, nowMs)
      ensures pausedAtMs.None? ==> IsTickOutput(old(tabs), tabPositions, nowMs, commands)
    {
      if pausedAtMs.Some? {
        return [];
      }
      ghost var orig := tabs;
      var unsorted, stale := AdvanceDueTabs(nowMs, tabPositions);
      ghost var ticked := tabs;
      RemoveTabs(stale);
      DropStaleGivesTicked(orig, ticked, tabs, stale, tabPositions, nowMs);
      commands := SortByTabIndex(unsorted);
      SortedTickCommands(orig, tabPositions, nowMs, unsorted, commands);
    }

    /**
     * The first pass of `tick`: advances every due tab that has a position,
     * collecting one command for each, and collects the tabs without a
     * position.
     */
    method AdvanceDueTabs(nowMs: uint64, tabPositions: map<uint32, nat>)
      returns (unsorted: seq<BlinkCommand>, stale: seq<uint32>)
      requires AllWellFormed(tabs)
      modifies this`tabs
      ensures tabs == PartlyTicked(old(tabs), tabPositions, nowMs, old(tabs).Keys)
      ensures forall k :: k in stale <==> k in old(tabs) && k !in tabPositions
      ensures TickCommands(old(tabs), tabPositions, nowMs, unsorted)
    {
      ghost var orig := tabs;
      var ticked := tabs;
      unsorted := [];
      stale := [];
      var pending := ticked.Keys;
      assert orig.Keys - pending == {};
      while pending != {}
        invariant pending <= orig.Keys
        invariant ticked == PartlyTicked(orig, tabPositions, nowMs, orig.Keys - pending)
        invariant forall k :: k in stale <==> k in orig && k !in pending && k !in tabPositions
        invariant CommandsFrom(orig, tabPositions, nowMs, orig.Keys - pending, unsorted)
        invariant CommandsCover(orig, tabPositions, nowMs, orig.Keys - pending, unsorted)
        invariant DistinctIndices(unsorted)
        decreases pending
      {
        var k :| k in pending;
        ghost var done := orig.Keys - pending;
        assert orig.Keys - (pending - {k}) == done + {k};
        CollectFrom(orig, tabPositions, nowMs, done, unsorted, k);
        CollectCover(orig, tabPositions, nowMs, done, unsorted, k);
        TickOneMore(orig, tabPositions, nowMs, done, k);
        if k !in tabPositions {
          stale := stale + [k];
        } else if ticked[k].nextTickMs <= nowMs {
          var state := Advanced(ticked[k], nowMs);
          ticked := ticked[k := state];
          var command := BlinkCommand(k, tabPositions[k], Render(state));
          AppendDistinct(unsorted, command);
          unsorted := unsorted + [command];
        }
        pending := pending - {k};
      }
      tabs := ticked;
    }

    /** The second pass of `tick`: removes the listed tabs and nothing else. */
    method RemoveTabs(stale: seq<uint32>)
      modifies this`tabs
      ensures forall k :: k in tabs <==> k in old(tabs) && k !in stale
      ensures forall k | k in tabs :: tabs[k] == old(tabs)[k]
    {
      for i := 0 to |stale|
        invariant forall k :: k in tabs <==> k in old(tabs) && k !in stale[..i]
        invariant forall k | k in tabs :: tabs[k] == old(tabs)[k]
      {
        assert stale[..i + 1] == stale[..i] + [stale[i]];
        tabs := tabs - {stale[i]};
      }
      assert stale[..|stale|] == stale;
    }

    /**
     * `next_delay_ms`: None while paused or with no tab; otherwise the
     * smallest wait over all tabs.
     */
    method NextDelayMs(nowMs: uint64) returns (delay: Option<uint64>)
      ensures pausedAtMs.Some? ==> delay.None?
      ensures pausedAtMs.None? ==> (delay.None? <==> tabs == map[])
      ensures delay.Some? ==> exists k | k in tabs :: delay.value == Wait(tabs[k], nowMs)
      ensures delay.Some? ==> forall k | k in tabs :: delay.value <= Wait(tabs[k], nowMs)
    {
      if pausedAtMs.Some? {
        return None;
      }
      delay := None;
      var pending := tabs.Keys;
      while pending != {}
        invariant pending <= tabs.Keys
        invariant delay.None? <==> pending == tabs.Keys
        invariant delay.Some? ==> exists k | k in tabs && k !in pending :: delay.value == Wait(tabs[k], nowMs)
        invariant delay.Some? ==> forall k | k in tabs && k !in pending :: delay.value <= Wait(tabs[k], nowMs)
        decreases pending
      {
        var k :| k in pending;
        var state := tabs[k];
        var wait := Wait(state, nowMs);
        if delay.None? || wait < delay.value {
          delay := Some(wait);
        }
        pending := pending - {k};
      }
      assert tabs == map[] <==> tabs.Keys == {};
    }

    /** `retain_active_tab_indices`: keeps exactly the listed tabs that blink. */
    method RetainActiveTabIndices(activeTabIndices: seq<uint32>)
      requires Valid()
      modifies this`tabs
      ensures Valid()
      ensures tabs == map k | k in old(tabs) && k in activeTabIndices :: old(tabs)[k]
    {
      var active := set i | i in activeTabIndices;
      tabs := map k | k in tabs && k in active :: tabs[k];
    }
  }
}
