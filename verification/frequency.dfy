/** Frequency changes: the frequency reached after one pass over the
    changes, and the first frequency reached twice when the changes are
    applied over and over. The input file is read as its sequence of
    already parsed changes. */
module Frequency {
  import opened Options
  import opened Sums

  /** Folding `+` over the changes from an accumulator, first change first. */
  function Fold(acc: int, changes: seq<int>): int
    decreases |changes|
  {
    if changes == [] then acc else Fold(acc + changes[0], changes[1..])
  }

  /** `calculate_frequency`: the fold from 0, which is the sum of the
      changes; no changes leave the frequency at 0. */
  function CalculateFrequency(changes: seq<int>): (r: int)
    ensures r == Sum(changes)
    ensures changes == [] ==> r == 0
  {
    FoldSum(0, changes);
    Fold(0, changes)
  }

  /** Folding from an accumulator adds the sum of the changes to it. */
  lemma {:induction false} FoldSum(acc: int, changes: seq<int>)
    ensures Fold(acc, changes) == acc + Sum(changes)
    decreases |changes|
  {
    if changes != [] {
      FoldSum(acc + changes[0], changes[1..]);
      SumFront(changes);
    }
  }

  /** The change applied at step `n` (counting from 0) when the changes
      are applied over and over. */
  function Cycle(changes: seq<int>, n: nat): int
    requires changes != []
    decreases n
  {
    if n < |changes| then changes[n] else Cycle(changes, n - |changes|)
  }

  /** The frequency after `n` changes, the changes repeating once used up.
      Without changes the frequency stays 0. */
  function Running(changes: seq<int>, n: nat): int
  {
    if n == 0 || changes == [] then 0
    else Running(changes, n - 1) + Cycle(changes, n - 1)
  }

  /** Step `steps` begins a pass: the next steps apply the changes in order. */
  ghost predicate PassStart(changes: seq<int>, steps: nat)
    requires changes != []
  {
    forall t :: 0 <= t < |changes| ==> Cycle(changes, steps + t) == changes[t]
  }

  lemma NextPass(changes: seq<int>, steps: nat)
    requires changes != [] && PassStart(changes, steps)
    ensures PassStart(changes, steps + |changes|)
  {
    forall t | 0 <= t < |changes| ensures Cycle(changes, steps + |changes| + t) == changes[t] {
      assert Cycle(changes, steps + |changes| + t) == Cycle(changes, steps + t);
    }
  }

  /** The first pass of the repeated search ends at the frequency of one pass. */
  lemma {:induction false} FirstPass(changes: seq<int>, n: nat)
    requires n <= |changes|
    ensures Running(changes, n) == Sum(changes[..n])
  {
    if n > 0 {
      FirstPass(changes, n - 1);
      assert changes[..n][..n - 1] == changes[..n - 1];
    }
  }

  /** The running frequency carries over from one pass to the next: every
      pass adds the sum of the changes. */
  lemma {:induction false} CarryAcrossPasses(changes: seq<int>, n: nat)
    requires changes != []
    ensures Running(changes, n + |changes|) == Running(changes, n) + Sum(changes)
  {
    if n == 0 {
      FirstPass(changes, |changes|);
      assert changes[..|changes|] == changes;
    } else {
      CarryAcrossPasses(changes, n - 1);
      assert Cycle(changes, n - 1 + |changes|) == Cycle(changes, n - 1);
    }
  }

  /** The `n`-th frequency (counting from 1) equals an earlier one. The
      starting 0 is not among the earlier ones. */
  ghost predicate RepeatAt(changes: seq<int>, n: nat)
  {
    changes != [] && exists k :: 1 <= k < n && Running(changes, k) == Running(changes, n)
  }

  /** The `n`-th frequency is the first to repeat an earlier one: it does,
      and all frequencies before it are pairwise distinct. */
  ghost predicate FirstRepeat(changes: seq<int>, n: nat)
  {
    RepeatAt(changes, n) && forall k, l :: 1 <= k < l < n ==> Running(changes, k) != Running(changes, l)
  }

  /** Before the first repeat, no frequency repeats an earlier one. */
  lemma NoEarlierRepeat(changes: seq<int>, n: nat)
    requires FirstRepeat(changes, n)
    ensures forall m :: 1 <= m < n ==> !RepeatAt(changes, m)
  {
    forall m, k | 1 <= k < m < n ensures Running(changes, k) != Running(changes, m) {}
  }

  /** There is only one first repeat. */
  lemma FirstRepeatUnique(changes: seq<int>, n: nat, n': nat)
    requires FirstRepeat(changes, n) && FirstRepeat(changes, n')
    ensures n == n'
  {
    NoEarlierRepeat(changes, n);
    NoEarlierRepeat(changes, n');
  }

  /** `calculate_loop_frequency`: apply the changes pass after pass,
      without resetting the frequency, remembering every frequency reached,
      and return the first one reached a second time. The code may loop
      forever; here it gives up with `None` after `passes` passes. */
  method LoopFrequency(changes: seq<int>, passes: nat) returns (r: Option<int>)
    ensures r.Some? ==> exists n :: 1 <= n <= passes * |changes| && FirstRepeat(changes, n) && r.value == Running(changes, n)
    ensures r.None? ==> forall n :: 1 <= n <= passes * |changes| ==> !RepeatAt(changes, n)
  {
    var seen: set<int> := {};
    var frequency := 0;
    ghost var steps := 0;
    var pass := 0;
    while pass < passes
      invariant pass <= passes
      invariant steps == pass * |changes|
      invariant frequency == Running(changes, steps)
      invariant Remembered(changes, seen, steps)
    {
      if changes != [] {
        PassOffset(pass, changes);
      }
      for t := 0 to |changes|
        invariant steps == pass * |changes| + t
        invariant frequency == Running(changes, steps)
        invariant Remembered(changes, seen, steps)
      {
        PassBound(pass, passes, |changes|, t);
        assert Cycle(changes, steps) == changes[t];
        frequency := frequency + changes[t];
        steps := steps + 1;
        if frequency in seen {
          FoundRepeat(changes, seen, steps);
          return Some(frequency);
        }
        Remember(changes, seen, steps);
        seen := seen + {frequency};
      }
      assert steps == (pass + 1) * |changes|;
      pass := pass + 1;
    }
    return None;
  }

  /** `seen` holds exactly the frequencies after steps 1 to `steps`, and
      these are pairwise distinct. */
  ghost predicate Remembered(changes: seq<int>, seen: set<int>, steps: nat)
  {
    && seen == (set k | 1 <= k <= steps :: Running(changes, k))
    && forall k, l :: 1 <= k < l <= steps ==> Running(changes, k) != Running(changes, l)
  }

  /** A new frequency is remembered with the others. */
  lemma Remember(changes: seq<int>, seen: set<int>, steps: nat)
    requires steps >= 1 && Remembered(changes, seen, steps - 1)
    requires Running(changes, steps) !in seen
    ensures Remembered(changes, seen + {Running(changes, steps)}, steps)
  {
    var now := set k | 1 <= k <= steps :: Running(changes, k);
    forall x | x in now ensures x in seen + {Running(changes, steps)} {
      var k :| 1 <= k <= steps && x == Running(changes, k);
      assert k < steps ==> 1 <= k <= steps - 1;
    }
    assert seen + {Running(changes, steps)} == now;
  }

  /** A frequency already remembered is the first repeat. */
  lemma FoundRepeat(changes: seq<int>, seen: set<int>, steps: nat)
    requires changes != [] && steps >= 1 && Remembered(changes, seen, steps - 1)
    requires Running(changes, steps) in seen
    ensures FirstRepeat(changes, steps)
  {
  }

  /** A step of a pass before the last stays within the bound. */
  lemma {:induction false} PassBound(pass: nat, passes: nat, len: nat, t: nat)
    requires pass < passes && t < len
    ensures pass * len + t + 1 <= passes * len
    decreases passes - pass
  {
    assert (pass + 1) * len == pass * len + len;
    if pass + 1 < passes {
      PassBound(pass + 1, passes, len, t);
    }
  }

  /** Every pass begins where the changes start over. */
  lemma {:induction false} PassOffset(pass: nat, changes: seq<int>)
    requires changes != []
    ensures PassStart(changes, pass * |changes|)
  {
    if pass > 0 {
      var len, before := |changes|, (pass - 1) * |changes|;
      assert before + len == pass * len;
      PassOffset(pass - 1, changes);
      NextPass(changes, before);
    }
  }

  /** Changes that are all positive never bring a frequency back. */
  lemma {:induction false} RisingNeverRepeats(changes: seq<int>, n: nat)
    requires forall i :: 0 <= i < |changes| ==> changes[i] > 0
    ensures !RepeatAt(changes, n)
  {
    if changes != [] {
      forall k | 1 <= k < n ensures Running(changes, k) < Running(changes, n) {
        Rising(changes, k, n);
      }
    }
  }

  lemma {:induction false} Rising(changes: seq<int>, k: nat, n: nat)
    requires changes != [] && forall i :: 0 <= i < |changes| ==> changes[i] > 0
    requires k < n
    ensures Running(changes, k) < Running(changes, n)
    decreases n
  {
    CyclePositive(changes, n - 1);
    if k < n - 1 {
      Rising(changes, k, n - 1);
    }
  }

  lemma {:induction false} CyclePositive(changes: seq<int>, n: nat)
    requires changes != [] && forall i :: 0 <= i < |changes| ==> changes[i] > 0
    ensures Cycle(changes, n) > 0
    decreases n
  {
    if n >= |changes| {
      CyclePositive(changes, n - |changes|);
    }
  }

  /** The example `+1, -1`: the frequencies are 1, 0, 1, so 1 is the first
      reached twice; 0 counts only once, since the start is not remembered. */
  lemma PlusOneMinusOne()
    ensures FirstRepeat([1, -1], 3) && Running([1, -1], 3) == 1
    ensures !RepeatAt([1, -1], 2)
  {
    var c := [1, -1];
    assert Running(c, 1) == 1;
    assert Running(c, 2) == 0;
    assert Running(c, 3) == 1;
  }
}
