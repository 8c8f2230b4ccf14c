/** `GameHistory` of LockstepBase/DataStructures.cs: a dictionary from 16-bit
    step number to step, bounded by `size`. When an `Add` takes it over the
    bound, the cursor `min` walks upward (wrapping at 65536) to the first key
    still present, that key is removed, and `min` ends one past it. */
module GameHistories {
  import opened Wrappers
  import opened Bytes
  import opened WireCodec
  import opened Seqs

  /** The abstract state: the dictionary, the cursor `_min` and the bound `_size`. */
  datatype History = History(steps: map<U16, GameStep>, min: U16, size: int)

  function Empty(size: int): (h: History)
    ensures h.steps == map[] && h.min == 0 && h.size == size
  {
    History(map[], 0, size)
  }

  /** Every step is stored under its own step number. */
  predicate Keyed(steps: map<U16, GameStep>) {
    forall k :: k in steps ==> steps[k].stepNumber == k
  }

  /** How many `_min++` steps lead from `from` to `to`. */
  function Dist(from: U16, to: U16): (d: nat)
    ensures d < 0x1_0000
    ensures d == 0 <==> from == to
  {
    (to - from) % 0x1_0000
  }

  lemma DistNext(from: U16, to: U16)
    requires from != to
    ensures Dist(Inc16(from), to) == Dist(from, to) - 1
  {
  }

  /** The key the eviction scan stops at: the first one present at or after
      `from`, going upward with wrap-around. `bound`, a key known to be
      present, bounds the scan. */
  function FirstPresent(keys: set<U16>, from: U16, bound: U16): (k: U16)
    requires bound in keys
    ensures k in keys
    ensures Dist(from, k) <= Dist(from, bound)
    decreases Dist(from, bound)
  {
    if from in keys then from
    else
      DistNext(from, bound);
      FirstPresent(keys, Inc16(from), bound)
  }

  /** No key is present strictly between `from` and the key the scan stops at. */
  lemma {:induction false} FirstPresentIsFirst(keys: set<U16>, from: U16, bound: U16)
    requires bound in keys
    ensures forall j: U16 :: Dist(from, j) < Dist(from, FirstPresent(keys, from, bound)) ==> j !in keys
    decreases Dist(from, bound)
  {
    if from !in keys {
      DistNext(from, bound);
      var k := FirstPresent(keys, Inc16(from), bound);
      FirstPresentIsFirst(keys, Inc16(from), bound);
      forall j: U16 | Dist(from, j) < Dist(from, k)
        ensures j !in keys
      {
        if j != from {
          DistNext(from, j);
          DistNext(from, k);
        }
      }
    }
  }

  lemma FirstPresentSkip(keys: set<U16>, from: U16, bound: U16)
    requires bound in keys && from !in keys
    ensures FirstPresent(keys, from, bound) == FirstPresent(keys, Inc16(from), bound)
  {
  }

  /** The scan's result does not depend on which present key bounds it. */
  lemma FirstPresentUnique(keys: set<U16>, from: U16, w1: U16, w2: U16)
    requires w1 in keys && w2 in keys
    ensures FirstPresent(keys, from, w1) == FirstPresent(keys, from, w2)
  {
    var k1, k2 := FirstPresent(keys, from, w1), FirstPresent(keys, from, w2);
    FirstPresentIsFirst(keys, from, w1);
    FirstPresentIsFirst(keys, from, w2);
    assert !(Dist(from, k1) < Dist(from, k2)) && !(Dist(from, k2) < Dist(from, k1));
    DistInjective(from, k1, k2);
  }

  lemma DistInjective(from: U16, a: U16, b: U16)
    requires Dist(from, a) == Dist(from, b)
    ensures a == b
  {
  }

  /** `Add(step)`: store the step under its number, then evict if over the bound. */
  function Added(h: History, s: GameStep): (r: History)
    ensures r.size == h.size
  {
    var steps := h.steps[s.stepNumber := s];
    if |steps| > h.size then
      var k := FirstPresent(steps.Keys, h.min, s.stepNumber);
      History(steps - {k}, Inc16(k), h.size)
    else
      History(steps, h.min, h.size)
  }

  /** If `Count <= size` held before an `Add`, it holds after. */
  lemma AddKeepsBound(h: History, s: GameStep)
    requires 0 <= h.size && |h.steps| <= h.size
    ensures |Added(h, s).steps| <= h.size
  {
    var steps := h.steps[s.stepNumber := s];
    assert steps.Keys == h.steps.Keys + {s.stepNumber};
    assert |steps| <= |h.steps| + 1;
    if |steps| > h.size {
      var k := FirstPresent(steps.Keys, h.min, s.stepNumber);
      assert (steps - {k}).Keys == steps.Keys - {k};
    }
  }

  /** An overflowing `Add` removes exactly one entry: the first key present at
      or after `min`; every other entry, the new step included unless it is
      that key, stays, and `min` ends one past the removed key. */
  lemma OverflowEvictsOne(h: History, s: GameStep)
    requires |h.steps[s.stepNumber := s]| > h.size
    ensures var steps := h.steps[s.stepNumber := s];
            var r := Added(h, s);
            exists k :: k in steps && r.steps.Keys == steps.Keys - {k} && |r.steps| == |steps| - 1
              && (forall j :: j in r.steps ==> r.steps[j] == steps[j])
              && (forall j: U16 :: Dist(h.min, j) < Dist(h.min, k) ==> j !in steps)
              && r.min == Inc16(k)
  {
    var steps := h.steps[s.stepNumber := s];
    var k := FirstPresent(steps.Keys, h.min, s.stepNumber);
    FirstPresentIsFirst(steps.Keys, h.min, s.stepNumber);
    assert (steps - {k}).Keys == steps.Keys - {k};
  }

  /** Re-adding a present step number overwrites it: the count stays the same
      and nothing is evicted. */
  lemma ReAddOverwrites(h: History, s: GameStep)
    requires s.stepNumber in h.steps && |h.steps| <= h.size
    ensures Added(h, s) == History(h.steps[s.stepNumber := s], h.min, h.size)
    ensures |Added(h, s).steps| == |h.steps|
  {
    assert h.steps[s.stepNumber := s].Keys == h.steps.Keys;
  }

  /** After `Add(s)` with room to spare, `TryGet(s.StepNumber)` finds `s`. */
  lemma AddThenGet(h: History, s: GameStep)
    requires |h.steps| < h.size || (s.stepNumber in h.steps && |h.steps| <= h.size)
    ensures s.stepNumber in Added(h, s).steps && Added(h, s).steps[s.stepNumber] == s
  {
    var steps := h.steps[s.stepNumber := s];
    assert steps.Keys == h.steps.Keys + {s.stepNumber};
    assert |steps| <= |h.steps| + 1;
    if s.stepNumber in h.steps {
      assert steps.Keys == h.steps.Keys;
    }
  }

  /** Adding keeps every step under its own number. */
  lemma AddKeepsKeyed(h: History, s: GameStep)
    requires Keyed(h.steps)
    ensures Keyed(Added(h, s).steps)
  {
  }

  /** Adding the steps of `ss` one after the other. */
  function AddAll(h: History, ss: seq<GameStep>): (r: History)
    ensures r.size == h.size
  {
    if ss == [] then h else Added(AddAll(h, ss[..|ss| - 1]), ss[|ss| - 1])
  }

  /** The step numbers `lo` to `hi - 1`. */
  function Window(lo: int, hi: int): (w: set<U16>)
    requires 0 <= lo && hi <= 0x1_0000
    ensures forall k :: k in w <==> lo <= k < hi
    decreases hi - lo
  {
    if lo >= hi then {} else Window(lo, hi - 1) + {hi - 1}
  }

  lemma {:induction false} WindowSize(lo: int, hi: int)
    requires 0 <= lo <= hi <= 0x1_0000
    ensures |Window(lo, hi)| == hi - lo
    decreases hi - lo
  {
    if lo < hi {
      WindowSize(lo, hi - 1);
    }
  }

  /** A dictionary whose keys are exactly `lo` to `hi - 1` holds `hi - lo` entries. */
  lemma RangeCount(m: map<U16, GameStep>, lo: int, hi: int)
    requires 0 <= lo <= hi <= 0x1_0000
    requires forall k: U16 :: k in m <==> lo <= k < hi
    ensures |m| == hi - lo
  {
    SetExt(m.Keys, Window(lo, hi));
    WindowSize(lo, hi);
  }

  /** One ascending `Add`: step `n` joins the window of the last `size` numbers. */
  lemma FillStep(h: History, s: GameStep, lo: int)
    requires h.size > 0
    requires lo == if s.stepNumber > h.size then s.stepNumber - h.size else 0
    requires forall k: U16 :: k in h.steps <==> lo <= k < s.stepNumber
    requires h.min == lo
    ensures var n := s.stepNumber;
            var lo' := if n + 1 > h.size then n + 1 - h.size else 0;
            var r := Added(h, s);
            && (forall k: U16 :: k in r.steps <==> lo' <= k < n + 1)
            && (forall k :: k in r.steps ==> r.steps[k] == if k == n then s else h.steps[k])
            && r.min == lo'
  {
    var n := s.stepNumber;
    var steps := h.steps[n := s];
    RangeCount(steps, lo, n + 1);
    if n + 1 > h.size {
      assert FirstPresent(steps.Keys, h.min, n) == lo;
    }
  }

  /** Steps numbered 0, 1, 2, ... added in order to a fresh history of
      capacity `c` leave exactly the last `c` of them retrievable, and the
      cursor at the oldest of those. */
  lemma {:induction false} AscendingFill(c: nat, ss: seq<GameStep>)
    requires c > 0 && |ss| <= 0x1_0000
    requires forall i :: 0 <= i < |ss| ==> ss[i].stepNumber == i
    ensures var lo := if |ss| > c then |ss| - c else 0;
            var r := AddAll(Empty(c), ss);
            && (forall k: U16 :: k in r.steps <==> lo <= k < |ss|)
            && (forall k :: k in r.steps ==> r.steps[k] == ss[k])
            && r.min == lo
  {
    if ss != [] {
      var n := |ss| - 1;
      var p := ss[..n];
      AscendingFill(c, p);
      FillStep(AddAll(Empty(c), p), ss[n], if n > c then n - c else 0);
    }
  }

  /** The class as the source has it: `Add` runs the eviction scan as a loop. */
  class GameHistory {
    var steps: map<U16, GameStep>
    var min: U16
    const size: int

    function State(): History
      reads this
    {
      History(steps, min, size)
    }

    constructor(size: int)
      ensures State() == Empty(size)
    {
      this.size := size;
      steps := map[];
      min := 0;
    }

    /** `Count`: the number of stored steps. */
    function Count(): (n: nat)
      reads this
      ensures n == |State().steps|
    {
      |steps|
    }

    method Add(step: GameStep)
      modifies this
      ensures State() == Added(old(State()), step)
    {
      ghost var before := State();
      steps := steps[step.stepNumber := step];
      if |steps| > size {
        ghost var target := FirstPresent(steps.Keys, min, step.stepNumber);
        ghost var added := steps;
        assert Added(before, step) == History(added - {target}, Inc16(target), size);
        while min !in steps
          invariant steps == added && step.stepNumber in steps
          invariant FirstPresent(steps.Keys, min, step.stepNumber) == target
          decreases Dist(min, step.stepNumber)
        {
          FirstPresentSkip(steps.Keys, min, step.stepNumber);
          DistNext(min, step.stepNumber);
          min := Inc16(min);
        }
        steps := steps - {min};
        min := Inc16(min);
      }
    }

    /** `TryGet`: the step stored under `n`, if any. */
    function TryGet(n: U16): (r: Option<GameStep>)
      reads this
      ensures r.Some? <==> n in steps
      ensures r.Some? ==> r.value == steps[n]
    {
      if n in steps then Some(steps[n]) else None
    }
  }
}
