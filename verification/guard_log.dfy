/** The guard sleep log: a state machine over log records that tallies, for
    every guard, how many times it was asleep in each minute of the midnight
    hour; then the questions asked of that tally — which guard slept most,
    and in which minute. */
module GuardLog {
  import opened Options
  import opened Text
  import opened Sums

  /** The number of minutes in a histogram. */
  const Hour := 60

  /** One sleep, from the minute it began up to (not including) the minute
      the guard woke. */
  datatype Nap = Nap(guard: string, start: nat, end: nat)

  /** What the reader keeps between records: the guard on duty, the minute
      text of the last fall, and the naps read so far. */
  datatype Log = Log(guard: string, sleepStart: string, naps: seq<Nap>)

  /** Before the first record no guard is on duty and nobody has fallen asleep. */
  const Start := Log("", "", [])

  /** One record. Six words: a guard begins a shift, word 3 names it.
      Otherwise word 2 says whether the guard falls asleep or (any other
      word) wakes up, and characters 3 to 5 of word 1 are the minute. A wake
      record adds a nap of the guard on duty from the last fall. `None` where
      the code panics: fewer than three words, a word 1 shorter than five
      characters, a minute that is not a number, or a nap reaching past the
      last slot of the histogram. */
  function Step(log: Log, entry: string): (r: Option<Log>)
    ensures |Split(entry, ' ')| == 6 ==> r.Some?
    ensures r.Some? ==> log.naps <= r.value.naps && |r.value.naps| <= |log.naps| + 1
    ensures r.Some? && |r.value.naps| > |log.naps| ==>
      var nap := r.value.naps[|log.naps|];
      nap.guard == log.guard && (nap.start < nap.end ==> nap.end <= Hour)
  {
    var parts := Split(entry, ' ');
    if |parts| == 6 then Some(log.(guard := parts[3]))
    else if |parts| < 3 || |parts[1]| < 5 then None
    else if parts[2] == "falls" then Some(log.(sleepStart := parts[1][3..5]))
    else
      var start, end := ParseUnsigned(log.sleepStart), ParseUnsigned(parts[1][3..5]);
      if start.None? || end.None? || (start.value < end.value && end.value > Hour) then None
      else Some(log.(naps := log.naps + [Nap(log.guard, start.value, end.value)]))
  }

  /** Reading the records one after the other; one failing record fails all. */
  function Run(log: Log, records: seq<string>): (r: Option<Log>)
    ensures r.Some? ==> log.naps <= r.value.naps && |r.value.naps| <= |log.naps| + |records|
    decreases |records|
  {
    if records == [] then Some(log)
    else
      var next := Step(log, records[0]);
      if next.None? then None else Run(next.value, records[1..])
  }

  /** How many naps of guard `g` cover minute `m`. */
  function Asleep(naps: seq<Nap>, g: string, m: int): nat
  {
    if naps == [] then 0
    else
      var last := naps[|naps| - 1];
      Asleep(naps[..|naps| - 1], g, m) + (if last.guard == g && last.start <= m < last.end then 1 else 0)
  }

  /** The guards that have a nap. */
  function Sleepers(naps: seq<Nap>): set<string>
  {
    if naps == [] then {} else Sleepers(naps[..|naps| - 1]) + {naps[|naps| - 1].guard}
  }

  /** A guard's histogram: for each minute, the number of its naps covering it. */
  function Histogram(naps: seq<Nap>, g: string): seq<int>
  {
    seq(Hour, m => Asleep(naps, g, m))
  }

  /** The result the accumulation must produce: one histogram for every
      guard that has a nap, and no other key. */
  ghost function Tally(naps: seq<Nap>): (t: map<string, seq<int>>)
    ensures forall g :: g in t ==> |t[g]| == Hour && forall m :: 0 <= m < Hour ==> t[g][m] >= 0
  {
    map g | g in Sleepers(naps) :: Histogram(naps, g)
  }

  /** A guard is in `Sleepers` exactly when it has a nap. */
  lemma {:induction false} SleepersHaveNaps(naps: seq<Nap>, g: string)
    ensures g in Sleepers(naps) <==> exists k :: 0 <= k < |naps| && naps[k].guard == g
    decreases |naps|
  {
    if naps != [] {
      var init := naps[..|naps| - 1];
      SleepersHaveNaps(init, g);
      if g in Sleepers(init) {
        var k :| 0 <= k < |init| && init[k].guard == g;
        assert naps[k] == init[k];
      }
      if exists k :: 0 <= k < |naps| && naps[k].guard == g {
        var k :| 0 <= k < |naps| && naps[k].guard == g;
        if k < |init| {
          assert init[k] == naps[k];
        }
      }
    }
  }

  /** A guard without naps is never asleep: its histogram, when created, is
      all zero. */
  lemma {:induction false} NeverAsleep(naps: seq<Nap>, g: string, m: int)
    requires g !in Sleepers(naps)
    ensures Asleep(naps, g, m) == 0
    decreases |naps|
  {
    if naps != [] {
      NeverAsleep(naps[..|naps| - 1], g, m);
    }
  }

  /** A new nap adds its guard as a key and raises that guard's histogram by
      one in the minutes it covers; every other slot and every other guard
      is unchanged. */
  lemma TallyNap(naps: seq<Nap>, nap: Nap)
    ensures Tally(naps + [nap]).Keys == Tally(naps).Keys + {nap.guard}
    ensures forall g, m :: g in Tally(naps + [nap]) && 0 <= m < Hour ==>
      Tally(naps + [nap])[g][m] == Histogram(naps, g)[m] + (if g == nap.guard && nap.start <= m < nap.end then 1 else 0)
  {
    var after := naps + [nap];
    assert after[..|after| - 1] == naps;
  }

  /** What each kind of record does: a shift record changes the guard on
      duty and a fall record the start minute, neither touching the tally;
      a wake record adds the guard on duty as a key and raises exactly the
      slots from the start minute up to the wake minute in that guard's
      histogram. */
  lemma StepEffect(log: Log, entry: string)
    requires Step(log, entry).Some?
    ensures var parts, after := Split(entry, ' '), Step(log, entry).value;
      |parts| == 6 ==>
        after.guard == parts[3] && after.sleepStart == log.sleepStart && Tally(after.naps) == Tally(log.naps)
    ensures var parts, after := Split(entry, ' '), Step(log, entry).value;
      |parts| != 6 && parts[2] == "falls" ==>
        after.guard == log.guard && after.sleepStart == parts[1][3..5] && Tally(after.naps) == Tally(log.naps)
    ensures var parts, after := Split(entry, ' '), Step(log, entry).value;
      |parts| != 6 && parts[2] != "falls" ==>
        var start, end := ParseUnsigned(log.sleepStart).value, ParseUnsigned(parts[1][3..5]).value;
        && after.guard == log.guard && after.sleepStart == log.sleepStart
        && Tally(after.naps).Keys == Tally(log.naps).Keys + {log.guard}
        && forall g, m :: g in Tally(after.naps) && 0 <= m < Hour ==>
             Tally(after.naps)[g][m] == Histogram(log.naps, g)[m] + (if g == log.guard && start <= m < end then 1 else 0)
  {
    var parts := Split(entry, ' ');
    if |parts| != 6 && parts[2] != "falls" {
      var start, end := ParseUnsigned(log.sleepStart).value, ParseUnsigned(parts[1][3..5]).value;
      TallyNap(log.naps, Nap(log.guard, start, end));
    }
  }

  /** A nap that is not empty ends within the hour. */
  ghost predicate WithinHour(naps: seq<Nap>)
  {
    forall k :: 0 <= k < |naps| && naps[k].start < naps[k].end ==> naps[k].end <= Hour
  }

  /** Reading records only ever adds naps that end within the hour. */
  lemma {:induction false} RunWithinHour(log: Log, records: seq<string>)
    requires WithinHour(log.naps) && Run(log, records).Some?
    ensures WithinHour(Run(log, records).value.naps)
    decreases |records|
  {
    if records != [] {
      RunWithinHour(Step(log, records[0]).value, records[1..]);
    }
  }

  /** The minutes of a nap. */
  function Length(nap: Nap): nat
  {
    if nap.start < nap.end then nap.end - nap.start else 0
  }

  /** The minutes guard `g` slept in all. */
  function TotalAsleep(naps: seq<Nap>, g: string): nat
  {
    if naps == [] then 0
    else
      var last := naps[|naps| - 1];
      TotalAsleep(naps[..|naps| - 1], g) + (if last.guard == g then Length(last) else 0)
  }

  /** The minutes of a nap that fall before minute `k`. */
  function LengthBelow(nap: Nap, k: int): int
  {
    if nap.start < nap.end && nap.start < k then (if nap.end < k then nap.end else k) - nap.start else 0
  }

  /** The minutes guard `g` slept before minute `k`, nap by nap. */
  function TotalBelow(naps: seq<Nap>, g: string, k: int): int
  {
    if naps == [] then 0
    else
      var last := naps[|naps| - 1];
      TotalBelow(naps[..|naps| - 1], g, k) + (if last.guard == g then LengthBelow(last, k) else 0)
  }

  lemma {:induction false} TotalBelowStep(naps: seq<Nap>, g: string, k: int)
    ensures TotalBelow(naps, g, k + 1) == TotalBelow(naps, g, k) + Asleep(naps, g, k)
    decreases |naps|
  {
    if naps != [] {
      TotalBelowStep(naps[..|naps| - 1], g, k);
    }
  }

  /** The first `k` slots of a histogram sum to the minutes slept before `k`. */
  lemma {:induction false} HistogramPrefixSum(naps: seq<Nap>, g: string, k: nat)
    requires k <= Hour
    ensures Sum(Histogram(naps, g)[..k]) == TotalBelow(naps, g, k)
  {
    if k == 0 {
      assert forall n :: 0 <= n < |naps| ==> LengthBelow(naps[n], 0) == 0;
      TotalBelowZero(naps, g);
    } else {
      HistogramPrefixSum(naps, g, k - 1);
      var h := Histogram(naps, g);
      assert h[..k][..k - 1] == h[..k - 1];
      TotalBelowStep(naps, g, k - 1);
    }
  }

  lemma {:induction false} TotalBelowZero(naps: seq<Nap>, g: string)
    ensures TotalBelow(naps, g, 0) == 0
    decreases |naps|
  {
    if naps != [] {
      TotalBelowZero(naps[..|naps| - 1], g);
    }
  }

  /** With every nap within the hour, counting before minute 60 counts all. */
  lemma {:induction false} TotalWithinHour(naps: seq<Nap>, g: string)
    requires WithinHour(naps)
    ensures TotalBelow(naps, g, Hour) == TotalAsleep(naps, g)
    decreases |naps|
  {
    if naps != [] {
      var init := naps[..|naps| - 1];
      assert WithinHour(init) by {
        forall k | 0 <= k < |init| ensures init[k] == naps[k] {}
      }
      TotalWithinHour(init, g);
    }
  }

  /** A guard's histogram sums to the minutes of all its naps. */
  lemma HistogramSum(naps: seq<Nap>, g: string)
    requires WithinHour(naps)
    ensures Sum(Histogram(naps, g)) == TotalAsleep(naps, g)
  {
    var h := Histogram(naps, g);
    HistogramPrefixSum(naps, g, Hour);
    assert h[..Hour] == h;
    TotalWithinHour(naps, g);
  }

  /** For a log that reads without failure, every histogram of the tally
      sums to the minutes that guard slept. */
  lemma TallySums(records: seq<string>, g: string)
    requires Run(Start, records).Some?
    ensures var naps := Run(Start, records).value.naps;
      g in Tally(naps) ==> Sum(Tally(naps)[g]) == TotalAsleep(naps, g)
  {
    RunWithinHour(Start, records);
    HistogramSum(Run(Start, records).value.naps, g);
  }

  /** Storing the raised histogram of the guard on duty gives the tally
      with the new nap. */
  lemma StoreHistogram(results: map<string, seq<int>>, naps: seq<Nap>, nap: Nap, minutes: seq<int>)
    requires results == Tally(naps)
    requires |minutes| == Hour
    requires forall m :: 0 <= m < Hour ==>
      minutes[m] == Asleep(naps, nap.guard, m) + (if nap.start <= m < nap.end then 1 else 0)
    ensures results[nap.guard := minutes] == Tally(naps + [nap])
  {
    TallyNap(naps, nap);
    var after := Tally(naps + [nap]);
    forall g | g in after ensures results[nap.guard := minutes][g] == after[g] {
      if g == nap.guard {
        forall m | 0 <= m < Hour ensures minutes[m] == after[g][m] {
          assert Histogram(naps, g)[m] == Asleep(naps, g, m);
        }
      } else {
        assert g in Tally(naps);
        forall m | 0 <= m < Hour ensures results[g][m] == after[g][m] {
        }
      }
    }
  }

  /** `get_minutes_asleep_by_guard`: walk the records keeping the guard on
      duty and the last fall minute; on a wake record, take the guard's
      histogram (all zero if it has none yet) and add one to each minute
      from the fall up to the wake. */
  method MinutesAsleepByGuard(records: seq<string>) returns (r: Option<map<string, seq<int>>>)
    ensures r.None? <==> Run(Start, records).None?
    ensures r.Some? ==> r.value == Tally(Run(Start, records).value.naps)
  {
    var results: map<string, seq<int>> := map[];
    var currentGuard, sleepStart := "", "";
    ghost var naps: seq<Nap> := [];
    for n := 0 to |records|
      invariant Run(Start, records) == Run(Log(currentGuard, sleepStart, naps), records[n..])
      invariant results == Tally(naps)
    {
      var entry := records[n];
      assert records[n..][0] == entry && records[n..][1..] == records[n + 1..];
      ghost var log := Log(currentGuard, sleepStart, naps);
      var parts := Split(entry, ' ');
      if |parts| == 6 {
        currentGuard := parts[3];
        assert Step(log, entry) == Some(Log(currentGuard, sleepStart, naps));
      } else {
        if |parts| < 3 || |parts[1]| < 5 {
          return None;
        }
        if parts[2] == "falls" {
          sleepStart := parts[1][3..5];
          assert Step(log, entry) == Some(Log(currentGuard, sleepStart, naps));
        } else {
          var sleepStop := parts[1][3..5];
          var minutes := if currentGuard in results then results[currentGuard] else seq(Hour, _ => 0);
          if currentGuard !in results {
            forall m | 0 <= m < Hour ensures Asleep(naps, currentGuard, m) == 0 {
              NeverAsleep(naps, currentGuard, m);
            }
          }
          var start := ParseUnsigned(sleepStart);
          var end := ParseUnsigned(sleepStop);
          if start.None? || end.None? {
            return None;
          }
          var i := start.value;
          while i < end.value
            invariant start.value <= i && (start.value < end.value ==> i <= end.value)
            invariant i > start.value ==> i <= Hour && start.value < end.value
            invariant |minutes| == Hour
            invariant forall m :: 0 <= m < Hour ==>
              minutes[m] == Asleep(naps, currentGuard, m) + (if start.value <= m < i then 1 else 0)
          {
            if i >= |minutes| {
              return None;
            }
            minutes := minutes[i := minutes[i] + 1];
            i := i + 1;
          }
          ghost var nap := Nap(currentGuard, start.value, end.value);
          assert start.value < end.value ==> i == end.value;
          assert start.value >= end.value ==> i == start.value;
          StoreHistogram(results, naps, nap, minutes);
          results := results[currentGuard := minutes];
          assert Step(log, entry) == Some(Log(currentGuard, sleepStart, naps + [nap]));
          naps := naps + [nap];
        }
      }
    }
    assert records[|records|..] == [];
    return Some(results);
  }

  /** `m` is where the strict-maximum scan of `hist` stops: the earliest
      slot holding the largest count, or 0 when no count is positive. */
  ghost predicate EarliestPeak(hist: seq<int>, m: int)
  {
    && ((forall k :: 0 <= k < |hist| ==> hist[k] <= 0) ==> m == 0)
    && ((exists k :: 0 <= k < |hist| && hist[k] > 0) ==>
          && 0 <= m < |hist|
          && (forall k :: 0 <= k < |hist| ==> hist[k] <= hist[m])
          && (forall k :: 0 <= k < m ==> hist[k] < hist[m]))
  }

  /** The minute loop of `main`: a slot replaces the best so far only when
      its count is strictly larger, starting from a best count of 0. */
  method MaxMinute(hist: seq<int>) returns (maxMin: nat)
    ensures EarliestPeak(hist, maxMin)
  {
    maxMin := 0;
    var maxAmount := 0;
    for m := 0 to |hist|
      invariant maxAmount >= 0
      invariant forall k :: 0 <= k < m ==> hist[k] <= maxAmount
      invariant maxAmount == 0 ==> maxMin == 0
      invariant maxAmount > 0 ==> maxMin < m && hist[maxMin] == maxAmount
      invariant maxAmount > 0 ==> forall k :: 0 <= k < maxMin ==> hist[k] < maxAmount
    {
      if hist[m] > maxAmount {
        maxMin := m;
        maxAmount := hist[m];
      }
    }
  }

  /** `g` slept at least as many minutes as every guard of the results. */
  ghost predicate MostAsleep(results: map<string, seq<int>>, g: string)
  {
    g in results && forall h :: h in results ==> Sum(results[h]) <= Sum(results[g])
  }

  /** The first half of the guard loop of `main`: a guard replaces the
      winner only when its total is strictly larger, starting from no
      winner (the empty name) and a total of 0. Keys are visited in any
      order, so among guards with equal totals any may win. */
  method SleepiestGuard(results: map<string, seq<int>>) returns (winner: string)
    ensures (forall g :: g in results ==> Sum(results[g]) <= 0) ==> winner == ""
    ensures (exists g :: g in results && Sum(results[g]) > 0) ==> MostAsleep(results, winner)
  {
    winner := "";
    var mostMins := 0;
    var todo := results.Keys;
    while todo != {}
      invariant todo <= results.Keys
      invariant mostMins >= 0
      invariant forall g :: g in results.Keys - todo ==> Sum(results[g]) <= mostMins
      invariant mostMins == 0 ==> winner == ""
      invariant mostMins > 0 ==> winner in results && Sum(results[winner]) == mostMins
      decreases todo
    {
      var k :| k in todo;
      var mins := Sum(results[k]);
      if mins > mostMins {
        winner := k;
        mostMins := mins;
      }
      todo := todo - {k};
    }
  }

  /** Part one of `main`: the sleepiest guard and its earliest peak minute.
      `None` where the code panics because the winner's name is not a key:
      no guard slept a minute, and none is named by the empty name. */
  method SleepiestMinute(results: map<string, seq<int>>) returns (r: Option<(string, nat)>)
    ensures r.None? <==> "" !in results && forall g :: g in results ==> Sum(results[g]) <= 0
    ensures r.Some? ==> r.value.0 in results && EarliestPeak(results[r.value.0], r.value.1)
    ensures r.Some? && (exists g :: g in results && Sum(results[g]) > 0) ==> MostAsleep(results, r.value.0)
    ensures r.Some? && (forall g :: g in results ==> Sum(results[g]) <= 0) ==> r.value.0 == ""
  {
    var winner := SleepiestGuard(results);
    if winner !in results {
      return None;
    }
    var maxMin := MaxMinute(results[winner]);
    return Some((winner, maxMin));
  }

  /** The second half of the guard loop of `main`: over every guard and
      every minute, the strictly largest count found so far wins, with its
      guard and minute. Among guards with the same peak any may win; within
      the winning guard the earliest minute with the peak wins. */
  method MostFrequentMinute(results: map<string, seq<int>>) returns (guard: string, minute: nat, count: int)
    ensures count >= 0
    ensures forall g, m :: g in results && 0 <= m < |results[g]| ==> results[g][m] <= count
    ensures count == 0 ==> guard == "" && minute == 0
    ensures count > 0 ==> guard in results && minute < |results[guard]| && results[guard][minute] == count
    ensures count > 0 ==> forall m :: 0 <= m < minute ==> results[guard][m] < count
  {
    guard, minute, count := "", 0, 0;
    var todo := results.Keys;
    while todo != {}
      invariant todo <= results.Keys
      invariant count >= 0
      invariant forall g, m :: g in results.Keys - todo && 0 <= m < |results[g]| ==> results[g][m] <= count
      invariant count == 0 ==> guard == "" && minute == 0
      invariant count > 0 ==> guard in results && minute < |results[guard]| && results[guard][minute] == count
      invariant count > 0 ==> forall m :: 0 <= m < minute ==> results[guard][m] < count
      decreases todo
    {
      var k :| k in todo;
      var hist := results[k];
      for m := 0 to |hist|
        invariant count >= 0
        invariant forall g, m' :: g in results.Keys - todo && 0 <= m' < |results[g]| ==> results[g][m'] <= count
        invariant forall m' :: 0 <= m' < m ==> hist[m'] <= count
        invariant count == 0 ==> guard == "" && minute == 0
        invariant count > 0 ==> guard in results && minute < |results[guard]| && results[guard][minute] == count
        invariant count > 0 ==> forall m' :: 0 <= m' < minute ==> results[guard][m'] < count
      {
        if hist[m] > count {
          count := hist[m];
          minute := m;
          guard := k;
        }
      }
      todo := todo - {k};
    }
  }
}
