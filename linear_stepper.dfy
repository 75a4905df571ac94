/**
 * Linear stepper: `count_trues` and `process` of idea.py.
 *
 * The state is one growing buffer.  Step n (0-based) appends one cell
 * computed from the buffer as it stands: with stride t = x * x, the
 * "self" value is read at index n - t with Python's negative indexing,
 * and the neighbour sum adds the buffer values at the eight candidate
 * positions n - t + d, d in {-x-1, -x, -x+1, -1, 1, x-1, x, x+1}, that
 * lie in [0, |buffer|).  The new cell follows the two-state Life rule:
 * born on a sum of 3, survives on 2 or 3.
 *
 * The sum is a sum of values, not a count of live cells: a position that
 * occurs twice among the candidates (-2 <= x <= 2) is added
 * twice, and a value other than 0 or 1 in the start state is added as it
 * is.
 *
 * After a step that appends 0, `process` evaluates `n % x` for its line
 * breaks; with x = 0 that raises ZeroDivisionError, which the model keeps
 * as an outcome of `Process`.
 */
module LinearStepper {

  /* ---------------------------------------------------------------- */
  /* Reading the buffer                                                 */
  /* ---------------------------------------------------------------- */

  /** Python's `s[i]` for -|s| <= i < |s|: a negative index counts from the end. */
  function PyIndex(s: seq<int>, i: int): int
    requires -|s| <= i < |s|
  {
    if i < 0 then s[|s| + i] else s[i]
  }

  /** Python's index is the index taken modulo the length: a negative one wraps around once. */
  lemma PyIndexWraps(s: seq<int>, i: int)
    requires -|s| <= i < |s|
    ensures PyIndex(s, i) == s[(i + |s|) % |s|]
  {
  }

  /** The `valid_indices` filter: the positions of `pos` inside [0, len), in order. */
  function ValidIndices(pos: seq<int>, len: int): (r: seq<int>)
    ensures |r| <= |pos|
    ensures forall k :: 0 <= k < |r| ==> 0 <= r[k] < len
  {
    if pos == [] then []
    else (if 0 <= pos[0] < len then [pos[0]] else []) + ValidIndices(pos[1..], len)
  }

  /** The filter keeps exactly the positions of `pos` that lie in [0, len). */
  lemma {:induction false} ValidIndicesKeeps(pos: seq<int>, len: int)
    ensures forall p :: p in ValidIndices(pos, len) <==> p in pos && 0 <= p < len
  {
    if pos != [] {
      ValidIndicesKeeps(pos[1..], len);
      assert pos == [pos[0]] + pos[1..];
    }
  }

  /** Every index of `idx` can be read in `state`. */
  predicate AllIn(state: seq<int>, idx: seq<int>)
  {
    forall k :: 0 <= k < |idx| ==> 0 <= idx[k] < |state|
  }

  /** Every value of the buffer is 0 or 1. */
  predicate Binary(state: seq<int>)
  {
    forall k :: 0 <= k < |state| ==> state[k] == 0 || state[k] == 1
  }

  /** `sum(state[i] for i in idx)`. */
  function SumAt(state: seq<int>, idx: seq<int>): (sum: int)
    requires AllIn(state, idx)
    ensures Binary(state) ==> 0 <= sum <= |idx|
  {
    if idx == [] then 0 else state[idx[0]] + SumAt(state, idx[1..])
  }

  /** `count_trues`: the three strip sums added together. */
  function CountTrues(state: seq<int>, top: seq<int>, middle: seq<int>, bottom: seq<int>): (sum: int)
    requires AllIn(state, top) && AllIn(state, middle) && AllIn(state, bottom)
    ensures Binary(state) ==> 0 <= sum <= |top| + |middle| + |bottom|
  {
    SumAt(state, top) + SumAt(state, middle) + SumAt(state, bottom)
  }

  /* ---------------------------------------------------------------- */
  /* One step                                                           */
  /* ---------------------------------------------------------------- */

  /** `t`, the stride: the number of cells of one x-by-x generation. */
  function Stride(x: int): nat
  {
    x * x
  }

  /**
   * The three strips of candidate positions of step n with stride t
   * (idea.py top3, middle2, bottom3).
   */
  function TopPositions(x: int, t: int, n: int): seq<int>
  {
    [n - t - x - 1, n - t - x, n - t - x + 1]
  }

  function MiddlePositions(x: int, t: int, n: int): seq<int>
  {
    [n - t - 1, n - t + 1]
  }

  function BottomPositions(x: int, t: int, n: int): seq<int>
  {
    [n - t + x - 1, n - t + x, n - t + x + 1]
  }

  /** `old_live_neighbors` at step n: the in-range candidates, filtered strip by strip, then summed. */
  function LiveNeighbours(state: seq<int>, x: int, n: int): (sum: int)
    ensures Binary(state) ==> 0 <= sum <= 8
  {
    var t := Stride(x);
    CountTrues(state,
      ValidIndices(TopPositions(x, t, n), |state|),
      ValidIndices(MiddlePositions(x, t, n), |state|),
      ValidIndices(BottomPositions(x, t, n), |state|))
  }

  /** The branch structure of idea.py: survive on 2 or 3 when alive, born on 3 when dead. */
  function LifeRule(oldSelf: int, liveNeighbours: int): (v: int)
    ensures v == 0 || v == 1
    ensures v == 1 <==> liveNeighbours == 3 || (oldSelf != 0 && liveNeighbours == 2)
  {
    if (oldSelf != 0 && liveNeighbours == 2) || (oldSelf != 0 && liveNeighbours == 3) then 1
    else if oldSelf == 0 && liveNeighbours == 3 then 1
    else 0
  }

  /** `state[n - t]` does not raise IndexError. */
  predicate SelfReadable(len: int, x: int, n: int)
  {
    -len <= n - Stride(x) < len
  }

  /** The value appended at step n to the buffer `state`. */
  function NextCell(state: seq<int>, x: int, n: int): (v: int)
    requires SelfReadable(|state|, x, n)
    ensures v == 0 || v == 1
  {
    LifeRule(PyIndex(state, n - Stride(x)), LiveNeighbours(state, x, n))
  }

  /* ---------------------------------------------------------------- */
  /* A reference definition of the neighbour sum                        */
  /* ---------------------------------------------------------------- */

  /** A buffer position's value, or 0 when the position lies outside the buffer. */
  function ValueOrZero(state: seq<int>, p: int): int
  {
    if 0 <= p < |state| then state[p] else 0
  }

  /** The sum over `pos` with out-of-range positions counted as 0. */
  function GuardedSum(state: seq<int>, pos: seq<int>): (sum: int)
    ensures Binary(state) ==> 0 <= sum <= |pos|
  {
    if pos == [] then 0 else ValueOrZero(state, pos[0]) + GuardedSum(state, pos[1..])
  }

  /** Filtering out-of-range positions and then summing is summing with 0 for them. */
  lemma {:induction false} FilteredSum(state: seq<int>, pos: seq<int>)
    ensures AllIn(state, ValidIndices(pos, |state|))
    ensures SumAt(state, ValidIndices(pos, |state|)) == GuardedSum(state, pos)
  {
    if pos != [] {
      FilteredSum(state, pos[1..]);
      var head := if 0 <= pos[0] < |state| then [pos[0]] else [];
      var rest := ValidIndices(pos[1..], |state|);
      assert ValidIndices(pos, |state|) == head + rest;
      SumAtAppend(state, head, rest);
    }
  }

  lemma {:induction false} SumAtAppend(state: seq<int>, a: seq<int>, b: seq<int>)
    requires AllIn(state, a) && AllIn(state, b)
    ensures AllIn(state, a + b)
    ensures SumAt(state, a + b) == SumAt(state, a) + SumAt(state, b)
  {
    if a == [] {
      assert a + b == b;
    } else {
      assert (a + b)[0] == a[0];
      assert (a + b)[1..] == a[1..] + b;
      SumAtAppend(state, a[1..], b);
    }
  }

  lemma {:induction false} GuardedSumAppend(state: seq<int>, a: seq<int>, b: seq<int>)
    ensures GuardedSum(state, a + b) == GuardedSum(state, a) + GuardedSum(state, b)
  {
    if a == [] {
      assert a + b == b;
    } else {
      assert (a + b)[0] == a[0];
      assert (a + b)[1..] == a[1..] + b;
      GuardedSumAppend(state, a[1..], b);
    }
  }

  /**
   * The eight candidate positions of step n, row by row around the base
   * position b = n - x*x: the row above, the two sides, the row below.
   */
  function Candidates(x: int, n: int): (pos: seq<int>)
    ensures |pos| == 8
    ensures pos == TopPositions(x, Stride(x), n) + MiddlePositions(x, Stride(x), n) + BottomPositions(x, Stride(x), n)
  {
    var t := Stride(x);
    [n - t - x - 1, n - t - x, n - t - x + 1, n - t - 1, n - t + 1, n - t + x - 1, n - t + x, n - t + x + 1]
  }

  /** No position occurs twice in `pos`. */
  predicate NoRepeats(pos: seq<int>)
  {
    forall a, b :: 0 <= a < b < |pos| ==> pos[a] != pos[b]
  }

  /**
   * The eight candidates are eight different positions exactly when the
   * grid is at least three wide either way; for -2 <= x <= 2 one position
   * occurs twice and `count_trues` adds its value twice.
   */
  lemma CandidatesDistinct(x: int, n: int)
    ensures NoRepeats(Candidates(x, n)) <==> x <= -3 || 3 <= x
  {
    var pos := Candidates(x, n);
    if x == 0 {
      assert pos[0] == pos[3];
    } else if x == 1 {
      assert pos[1] == pos[3];
    } else if x == 2 {
      assert pos[2] == pos[3];
    } else if x == -1 {
      assert pos[1] == pos[4];
    } else if x == -2 {
      assert pos[0] == pos[4];
    }
  }

  /**
   * The neighbour sum of step n is the sum of the eight candidate values,
   * each candidate outside the buffer contributing 0 (boundary truncation,
   * no wrap-around).
   */
  lemma NeighbourSum(state: seq<int>, x: int, n: int)
    ensures LiveNeighbours(state, x, n) == GuardedSum(state, Candidates(x, n))
  {
    var top := TopPositions(x, Stride(x), n);
    var middle := MiddlePositions(x, Stride(x), n);
    var bottom := BottomPositions(x, Stride(x), n);
    FilteredSum(state, top);
    FilteredSum(state, middle);
    FilteredSum(state, bottom);
    GuardedSumAppend(state, top, middle);
    GuardedSumAppend(state, top + middle, bottom);
  }

  /* ---------------------------------------------------------------- */
  /* The whole run                                                      */
  /* ---------------------------------------------------------------- */

  /**
   * The run does not raise: with at least one step, step 0 reads
   * `state[-t]`, which needs t <= |start| and a non-empty buffer; every
   * later step is then readable too.
   */
  function CanRun(x: int, len: nat, steps: int): (ok: bool)
    ensures ok <==> steps <= 0 || SelfReadable(len, x, 0)
  {
    steps <= 0 || (Stride(x) <= len && 0 < len)
  }

  /** The buffer after `steps` steps of `process(x, start, steps)`. */
  function Run(x: int, start: seq<int>, steps: nat): (state: seq<int>)
    requires CanRun(x, |start|, steps)
    ensures |state| == |start| + steps
  {
    if steps == 0 then start
    else
      var prev := Run(x, start, steps - 1);
      prev + [NextCell(prev, x, steps - 1)]
  }

  /** History is only appended to: a shorter run is a prefix of a longer one. */
  lemma {:induction false} RunPrefix(x: int, start: seq<int>, k: nat, m: nat)
    requires CanRun(x, |start|, m)
    requires k <= m
    ensures CanRun(x, |start|, k)
    ensures Run(x, start, m)[..|start| + k] == Run(x, start, k)
    decreases m
  {
    if k < m {
      var p := m - 1;
      RunPrefix(x, start, k, p);
      RunNext(x, start, p, m);
      PrefixOfAppend(Run(x, start, p), [NextCell(Run(x, start, p), x, p)], |start| + k);
    }
  }

  lemma PrefixOfAppend(a: seq<int>, b: seq<int>, j: nat)
    requires j <= |a|
    ensures (a + b)[..j] == a[..j]
  {
  }

  /** Cell |start| + n of a run is the cell step n appends to the history before it. */
  lemma RunStep(x: int, start: seq<int>, steps: nat, n: nat)
    requires CanRun(x, |start|, steps)
    requires n < steps
    ensures SelfReadable(|start| + n, x, n)
    ensures Run(x, start, steps)[|start| + n] == NextCell(Run(x, start, steps)[..|start| + n], x, n)
  {
    var m := n + 1;
    RunPrefix(x, start, m, steps);
    RunPrefix(x, start, n, steps);
    RunNext(x, start, n, m);
    var full := Run(x, start, steps);
    assert full[|start| + n] == full[..|start| + m][|start| + n];
  }

  /** A run of m = n + 1 steps is the run of n steps and the cell step n computes. */
  lemma RunNext(x: int, start: seq<int>, n: nat, m: nat)
    requires m == n + 1
    requires CanRun(x, |start|, m)
    ensures CanRun(x, |start|, n)
    ensures SelfReadable(|start| + n, x, n)
    ensures Run(x, start, m) == Run(x, start, n) + [NextCell(Run(x, start, n), x, n)]
  {
  }

  /**
   * Cell |start| + n of a run is the Life rule applied to the history
   * before it: the self value read Python-style at n - x*x, and the
   * neighbour sum of the eight candidates, those outside [0, |start| + n)
   * counted as 0.  It is always 0 or 1.
   */
  lemma RunCell(x: int, start: seq<int>, steps: nat, n: nat)
    requires CanRun(x, |start|, steps)
    requires n < steps
    ensures SelfReadable(|start| + n, x, n)
    ensures var history := Run(x, start, steps)[..|start| + n];
            var b := n - Stride(x);
            var sum := GuardedSum(history, Candidates(x, n));
            && (Run(x, start, steps)[|start| + n] == 0 || Run(x, start, steps)[|start| + n] == 1)
            && (Run(x, start, steps)[|start| + n] == 1 <==>
                  (PyIndex(history, b) != 0 && (sum == 2 || sum == 3))
                  || (PyIndex(history, b) == 0 && sum == 3))
  {
    RunStep(x, start, steps, n);
    NeighbourSum(Run(x, start, steps)[..|start| + n], x, n);
  }

  /**
   * Where the self value of step n comes from, as a cell of the whole run.
   * From step t on it is the cell one stride behind n; before that
   * Python's negative index wraps to the end of the buffer as it stands at
   * step n and reads cell |start| + 2n - t of the run.
   */
  lemma SelfReadInHistory(x: int, start: seq<int>, steps: nat, n: nat)
    requires CanRun(x, |start|, steps)
    requires n < steps
    ensures SelfReadable(|Run(x, start, n)|, x, n)
    ensures var t := Stride(x);
            PyIndex(Run(x, start, n), n - t) ==
              if n >= t then Run(x, start, steps)[n - t]
              else Run(x, start, steps)[|start| + 2 * n - t]
  {
    RunPrefix(x, start, n, steps);
  }

  /** A run from a buffer of 0s and 1s only ever holds 0s and 1s. */
  lemma {:induction false} RunBinary(x: int, start: seq<int>, steps: nat)
    requires CanRun(x, |start|, steps)
    requires Binary(start)
    ensures Binary(Run(x, start, steps))
  {
    if steps > 0 {
      RunBinary(x, start, steps - 1);
    }
  }

  /* ---------------------------------------------------------------- */
  /* The imperative procedure                                           */
  /* ---------------------------------------------------------------- */

  /**
   * The strips `process` builds at step n from the stride t, filtered and
   * summed, give the neighbour sum of that step.
   */
  lemma StripsAreNeighbours(state: seq<int>, x: int, t: int, n: int, top: seq<int>, middle: seq<int>, bottom: seq<int>)
    requires t == Stride(x)
    requires top == [n - t - x - 1, n - t - x, n - t - x + 1]
    requires middle == [n - t - 1, n - t + 1]
    requires bottom == [n - t + x - 1, n - t + x, n - t + x + 1]
    ensures CountTrues(state, ValidIndices(top, |state|), ValidIndices(middle, |state|), ValidIndices(bottom, |state|))
            == LiveNeighbours(state, x, n)
  {
    assert top == TopPositions(x, t, n);
    assert middle == MiddlePositions(x, t, n);
    assert bottom == BottomPositions(x, t, n);
  }

  /**
   * The body of one iteration of `process` up to the append: the three
   * strips around n - t, filtered to the buffer, the self value, the
   * neighbour sum and the Life rule, in the order of idea.py.
   */
  method StepCell(state: seq<int>, x: int, t: int, n: int) returns (cell: int)
    requires t == Stride(x)
    requires SelfReadable(|state|, x, n)
    ensures cell == NextCell(state, x, n)
  {
    var top3PriorPos := [n - t - x - 1, n - t - x, n - t - x + 1];
    var middle2PriorPos := [n - t - 1, n - t + 1];
    var bottom3PriorPos := [n - t + x - 1, n - t + x, n - t + x + 1];

    var top3Valid := ValidIndices(top3PriorPos, |state|);
    var middle2Valid := ValidIndices(middle2PriorPos, |state|);
    var bottom3Valid := ValidIndices(bottom3PriorPos, |state|);

    var oldSelf := PyIndex(state, n - t);
    var oldLiveNeighbours := CountTrues(state, top3Valid, middle2Valid, bottom3Valid);

    StripsAreNeighbours(state, x, t, n, top3PriorPos, middle2PriorPos, bottom3PriorPos);
    if (oldSelf != 0 && oldLiveNeighbours == 2) || (oldSelf != 0 && oldLiveNeighbours == 3) {
      cell := 1;
    } else if oldSelf == 0 && oldLiveNeighbours == 3 {
      cell := 1;
    } else {
      cell := 0;
    }
  }

  /**
   * How `process` ends: with the final buffer, or with the
   * ZeroDivisionError that `n % x` raises at step `step` when x = 0.
   */
  datatype Outcome = Finished(state: seq<int>) | ZeroDivisionError(step: nat)

  /** No cell of `s` from index `from` on is 0. */
  predicate NoZeroFrom(s: seq<int>, from: nat)
  {
    forall k :: from <= k < |s| ==> s[k] != 0
  }

  /**
   * Step p is the first of a `count`-step run to append 0: run cell
   * |start| + p is 0 and no cell appended before it is.
   */
  predicate FirstZeroStep(x: int, start: seq<int>, count: nat, p: nat)
    requires CanRun(x, |start|, count)
  {
    && p < count
    && Run(x, start, count)[|start| + p] == 0
    && NoZeroFrom(Run(x, start, count)[..|start| + p], |start|)
  }

  /** `range(steps)` runs max(steps, 0) iterations. */
  function StepCount(steps: int): (count: nat)
    ensures steps <= 0 ==> count == 0
    ensures steps > 0 ==> count == steps
  {
    if steps > 0 then steps else 0
  }

  /**
   * `process(x, start_state, steps)`: copies the start state and appends
   * one cell per step.  A non-positive `steps` runs no step, as
   * `range(steps)` is then empty.  A step that appends 1 ends with
   * `continue`; a step that appends 0 goes on to the line breaks, whose
   * `n % x` raises ZeroDivisionError when x = 0.  So with x = 0 the
   * procedure fails at the first step that appends 0, and otherwise it
   * returns the whole run.  The caller's sequence is a value and is never
   * changed.
   */
  method Process(x: int, startState: seq<int>, steps: int) returns (r: Outcome)
    requires CanRun(x, |startState|, steps)
    ensures r.Finished? <==> x != 0 || NoZeroFrom(Run(x, startState, StepCount(steps)), |startState|)
    ensures r.Finished? ==> |r.state| == |startState| + StepCount(steps)
    ensures r.Finished? ==> r.state[..|startState|] == startState
    ensures r.Finished? ==> r.state == Run(x, startState, StepCount(steps))
    ensures r.ZeroDivisionError? ==> x == 0 && FirstZeroStep(x, startState, StepCount(steps), r.step)
  {
    var t := Stride(x);
    var state := startState;
    var n := 0;
    while n < steps
      invariant 0 <= n <= StepCount(steps)
      invariant CanRun(x, |startState|, n)
      invariant |state| == |startState| + n
      invariant state == Run(x, startState, n)
      invariant x == 0 ==> NoZeroFrom(state, |startState|)
    {
      var cell := StepCell(state, x, t, n);
      var prior := n;
      state := state + [cell];
      n := n + 1;
      RunNext(x, startState, prior, n);
      if cell == 0 && x == 0 {
        r := ZeroDivisionError(prior);
        ZeroStops(x, startState, r.step, n, StepCount(steps));
        return;
      }
    }
    assert n == StepCount(steps);
    RunPrefix(x, startState, 0, n);
    r := Finished(state);
  }

  /**
   * When step p of a run appends 0, and no earlier step did, the longer
   * run of `count` steps shows that: its cell |start| + p is 0, the cells
   * appended before it are not, and so not every appended cell is non-zero.
   */
  lemma ZeroStops(x: int, start: seq<int>, p: nat, m: nat, count: nat)
    requires m == p + 1 && m <= count
    requires CanRun(x, |start|, count)
    requires NextCell(Run(x, start, p), x, p) == 0
    requires NoZeroFrom(Run(x, start, p), |start|)
    ensures FirstZeroStep(x, start, count, p)
    ensures !NoZeroFrom(Run(x, start, count), |start|)
  {
    RunNext(x, start, p, m);
    RunPrefix(x, start, m, count);
    RunPrefix(x, start, p, count);
    var full := Run(x, start, count);
    assert full[|start| + p] == full[..|start| + m][|start| + p];
  }

  /* ---------------------------------------------------------------- */
  /* Worked examples                                                    */
  /* ---------------------------------------------------------------- */

  /**
   * With x = 1 the candidates of step n repeat positions: for buffer [1],
   * step 0 keeps cell 0 once in the middle strip (n - t + 1) and once in
   * the bottom strip (n - t + x), so its neighbour sum is 2 and the live
   * cell survives.
   */
  lemma DuplicateCandidateExample()
    ensures LiveNeighbours([1], 1, 0) == 2
    ensures Run(1, [1], 1) == [1, 1]
  {
    assert Stride(1) == 1;
    assert ValidIndices(TopPositions(1, 1, 0), 1) == [];
    assert ValidIndices(MiddlePositions(1, 1, 0), 1) == [0];
    assert ValidIndices(BottomPositions(1, 1, 0), 1) == [0];
    RunNext(1, [1], 0, 1);
  }
}
