/**
 * The timer step of the tab-index probe: what to do when the probe timer
 * fires, given the probe's counters. It either waits for a name restore once
 * more, gives up on a stuck restore, skips a candidate index that no tab
 * answered (a gap), falls back after 3 x tab-count candidates, or ignores the
 * timer when nothing is left to find.
 */
module Probing {
  import opened BoundedInts

  /** Timer firings allowed while waiting for a restore before forcing the next candidate. */
  const MAX_RESTORE_RETRIES: uint32 := 5

  datatype TimerResult =
    | Retry                       // set another timeout and wait
    | AdvanceProbe(index: uint32) // send the probe at this candidate index
    | Fallback                    // give up and use the indices 1..N
    | Ignore                      // nothing to do

  /** The part of a probing state that the timer step reads and writes. */
  datatype ProbeCounters = ProbeCounters(
    tabCount: nat,          // how many tab names were saved when probing started
    candidate: uint32,
    remaining: nat,
    restoring: bool,
    restoreRetries: uint32)

  /** The result of one timer step and the counters after it. */
  datatype Step = Step(result: TimerResult, after: ProbeCounters)

  /**
   * The step does not overflow u32: the increments of `candidate` and
   * `restore_retries` and the product `3 * tab_count` stay below 2^32 (the
   * Rust code panics otherwise).
   */
  predicate NoOverflow(c: ProbeCounters) {
    && c.candidate < UINT32_MAX
    && c.restoreRetries < UINT32_MAX
    && 3 * c.tabCount < TWO_TO_THE_32
  }

  /** The largest candidate index probed before falling back. */
  function MaxCandidate(c: ProbeCounters): nat {
    3 * c.tabCount
  }

  /** `handle_probe_timer` on the counters. */
  function TimerStep(c: ProbeCounters): (s: Step)
    requires NoOverflow(c)
    ensures s.after.tabCount == c.tabCount && s.after.remaining == c.remaining
    ensures s.result.AdvanceProbe? ==> s.result.index == s.after.candidate
    ensures s.result == Ignore <==> !c.restoring && c.remaining == 0
    ensures s.result == Ignore ==> s.after == c
    ensures s.result == Retry <==> c.restoring && c.restoreRetries + 1 < MAX_RESTORE_RETRIES
    ensures s.result == Retry ==> s.after == c.(restoreRetries := c.restoreRetries + 1)
    ensures s.result == Fallback ==> s.after.candidate > MaxCandidate(c) && c.remaining > 0
    ensures c.restoring ==> s.after.restoreRetries < MAX_RESTORE_RETRIES
    ensures s.after.candidate == c.candidate || s.after.candidate == c.candidate + 1
  {
    if c.restoring then
      var retries := c.restoreRetries + 1;
      if retries >= MAX_RESTORE_RETRIES then
        var next := c.(restoring := false, restoreRetries := 0, candidate := c.candidate + 1);
        if next.candidate > MaxCandidate(c) && c.remaining > 0 then Step(Fallback, next)
        else Step(AdvanceProbe(next.candidate), next)
      else Step(Retry, c.(restoreRetries := retries))
    else if c.remaining == 0 then Step(Ignore, c)
    else
      var next := c.(candidate := c.candidate + 1);
      if next.candidate > MaxCandidate(c) && c.remaining > 0 then Step(Fallback, next)
      else Step(AdvanceProbe(next.candidate), next)
  }

  /**
   * A stuck restore: the firing that brings the retry count to the limit
   * clears `restoring`, resets the count and moves to the next candidate,
   * falling back when that candidate is past 3 x tab count and tabs remain.
   */
  lemma ForcedAdvance(c: ProbeCounters)
    requires NoOverflow(c)
    requires c.restoring && c.restoreRetries + 1 >= MAX_RESTORE_RETRIES
    ensures var s := TimerStep(c);
            && s.after == c.(restoring := false, restoreRetries := 0, candidate := c.candidate + 1)
            && (s.result == Fallback <==> c.candidate + 1 > 3 * c.tabCount && c.remaining > 0)
            && (s.result != Fallback ==> s.result == AdvanceProbe(c.candidate + 1))
  {
  }

  /**
   * A gap: no tab showed the marker, so the candidate moves on by exactly one,
   * falling back exactly when it passes 3 x tab count.
   */
  lemma GapAdvance(c: ProbeCounters)
    requires NoOverflow(c)
    requires !c.restoring && c.remaining > 0
    ensures var s := TimerStep(c);
            && s.after == c.(candidate := c.candidate + 1)
            && (s.result == Fallback <==> c.candidate + 1 > 3 * c.tabCount)
            && (s.result != Fallback ==> s.result == AdvanceProbe(c.candidate + 1))
  {
  }

  /** The results of `k` timer firings in a row with nothing else happening in between. */
  function Firings(c: ProbeCounters, k: nat): (rs: seq<TimerResult>)
    ensures |rs| <= k
    decreases k
  {
    if k == 0 || !NoOverflow(c) then []
    else
      var s := TimerStep(c);
      [s.result] + Firings(s.after, k - 1)
  }

  /**
   * When no tab ever answers, a probe at candidate `c` advances one index per
   * firing up to 3 x tab count and then falls back: the bound on the gap search.
   */
  lemma {:induction false} GapSearchEnds(c: ProbeCounters)
    requires !c.restoring && c.remaining > 0
    requires 1 <= c.candidate <= 3 * c.tabCount
    requires 3 * c.tabCount + 1 < UINT32_MAX && c.restoreRetries < UINT32_MAX
    ensures var n := 3 * c.tabCount - c.candidate;
            Firings(c, n + 1) == seq(n, i requires 0 <= i < n => AdvanceProbe(c.candidate + 1 + i)) + [Fallback]
    decreases 3 * c.tabCount - c.candidate
  {
    var n := 3 * c.tabCount - c.candidate;
    var s := TimerStep(c);
    if n == 0 {
      assert s.result == Fallback;
      assert Firings(s.after, 0) == [];
    } else {
      var c' := s.after;
      assert s.result == AdvanceProbe(c.candidate + 1);
      GapSearchEnds(c');
      var rest := seq(n - 1, i requires 0 <= i < n - 1 => AdvanceProbe(c'.candidate + 1 + i));
      assert Firings(c', n) == rest + [Fallback];
      assert [AdvanceProbe(c.candidate + 1)] + rest
          == seq(n, i requires 0 <= i < n => AdvanceProbe(c.candidate + 1 + i));
    }
  }

  /**
   * A restore that never completes is waited for on four firings and given up
   * on the fifth, whatever the retry count it started from below the limit.
   */
  lemma {:induction false} StuckRestoreGivesUp(c: ProbeCounters)
    requires NoOverflow(c)
    requires c.restoring && c.restoreRetries < MAX_RESTORE_RETRIES
    ensures var k := MAX_RESTORE_RETRIES - c.restoreRetries;
            var rs := Firings(c, k);
            && |rs| == k
            && (forall i | 0 <= i < k - 1 :: rs[i] == Retry)
            && rs[k - 1] in {Fallback, AdvanceProbe(c.candidate + 1)}
    decreases MAX_RESTORE_RETRIES - c.restoreRetries
  {
    var s := TimerStep(c);
    if c.restoreRetries + 1 < MAX_RESTORE_RETRIES {
      StuckRestoreGivesUp(s.after);
    } else {
      ForcedAdvance(c);
    }
  }

  /** `ProbingState`: the full state of a probe in progress. */
  class ProbingState {
    /** Tab names saved before probing started, by position. */
    var originalNames: map<nat, string>
    /** The persistent index currently being probed. */
    var candidate: uint32
    /** Mappings found so far: (tab position, persistent index). */
    var found: seq<(nat, uint32)>
    /** How many tabs still need to be found. */
    var remaining: nat
    /** Waiting for the marked tab's name to be restored. */
    var restoring: bool
    /** Timer firings seen while restoring. */
    var restoreRetries: uint32

    function Counters(): ProbeCounters
      reads this
    {
      ProbeCounters(|originalNames|, candidate, remaining, restoring, restoreRetries)
    }

    /** `ProbingState::new`: probe index 1 first, nothing found, every tab remaining. */
    constructor (originalNames: map<nat, string>)
      ensures this.originalNames == originalNames
      ensures candidate == 1 && found == [] && remaining == |originalNames|
      ensures !restoring && restoreRetries == 0
    {
      this.originalNames := originalNames;
      candidate := 1;
      found := [];
      remaining := |originalNames|;
      restoring := false;
      restoreRetries := 0;
    }
  }

  /**
   * `handle_probe_timer`: advances the probing state as TimerStep says; the
   * saved names, the found mappings and the remaining count are untouched.
   */
  method HandleProbeTimer(state: ProbingState) returns (result: TimerResult)
    requires NoOverflow(state.Counters())
    modifies state
    ensures Step(result, state.Counters()) == TimerStep(old(state.Counters()))
    ensures state.originalNames == old(state.originalNames) && state.found == old(state.found)
  {
    if state.restoring {
      state.restoreRetries := state.restoreRetries + 1;
      if state.restoreRetries >= MAX_RESTORE_RETRIES {
        state.restoring := false;
        state.restoreRetries := 0;
        state.candidate := state.candidate + 1;
        var maxCandidate := |state.originalNames| * 3;
        if state.candidate > maxCandidate && state.remaining > 0 {
          return Fallback;
        }
        return AdvanceProbe(state.candidate);
      }
      return Retry;
    }
    if state.remaining == 0 {
      return Ignore;
    }
    state.candidate := state.candidate + 1;
    var maxCandidate := |state.originalNames| * 3;
    if state.candidate > maxCandidate && state.remaining > 0 {
      return Fallback;
    }
    result := AdvanceProbe(state.candidate);
  }
}
