/** Box ids: the checksum built from letters occurring exactly twice or three
    times, and the search for two ids that differ in exactly one position. */
module BoxIds {
  import opened Options

  /** `has_two` and `has_three` are flags, 0 or 1. */
  datatype Score = Score(hasTwo: int, hasThree: int)

  /** How many times `c` occurs in `s`. */
  function Occurrences(s: string, c: char): nat
  {
    multiset(s)[c]
  }

  /** Some character of `s` occurs in it exactly `n` times. */
  ghost predicate HasExactly(s: string, n: nat)
  {
    exists c :: c in s && Occurrences(s, c) == n
  }

  /** `get_freq_score`: count every character, then raise `has_two` if some
      count is 2 and `has_three` if some count is 3, visiting the counts in
      any order. */
  method FreqScore(id: string) returns (score: Score)
    ensures score.hasTwo == (if HasExactly(id, 2) then 1 else 0)
    ensures score.hasThree == (if HasExactly(id, 3) then 1 else 0)
  {
    var counts: map<char, int> := map[];
    for i := 0 to |id|
      invariant forall c :: c in counts <==> c in id[..i]
      invariant forall c :: c in counts ==> counts[c] == Occurrences(id[..i], c)
    {
      var c := id[i];
      assert id[..i + 1] == id[..i] + [c];
      counts := counts[c := (if c in counts then counts[c] else 0) + 1];
    }
    assert id[..|id|] == id;

    score := Score(0, 0);
    var todo := counts.Keys;
    while todo != {}
      invariant todo <= counts.Keys
      invariant score.hasTwo == if exists c :: c in counts.Keys - todo && counts[c] == 2 then 1 else 0
      invariant score.hasThree == if exists c :: c in counts.Keys - todo && counts[c] == 3 then 1 else 0
      decreases todo
    {
      var c :| c in todo;
      if counts[c] == 2 {
        score := score.(hasTwo := 1);
      } else if counts[c] == 3 {
        score := score.(hasThree := 1);
      }
      todo := todo - {c};
    }
  }

  /** How many lines have some character exactly `n` times. */
  ghost function LinesWith(lines: seq<string>, n: nat): nat
    decreases |lines|
  {
    if lines == [] then 0
    else LinesWith(lines[..|lines| - 1], n) + (if HasExactly(lines[|lines| - 1], n) then 1 else 0)
  }

  /** `calculate_checksum`: the number of lines with a letter occurring
      exactly twice times the number of lines with a letter occurring exactly
      three times. */
  method Checksum(lines: seq<string>) returns (checksum: int)
    ensures checksum == LinesWith(lines, 2) * LinesWith(lines, 3)
  {
    var twos, threes := 0, 0;
    for k := 0 to |lines|
      invariant twos == LinesWith(lines[..k], 2) && threes == LinesWith(lines[..k], 3)
    {
      var score := FreqScore(lines[k]);
      assert lines[..k + 1][..k] == lines[..k];
      twos := twos + score.hasTwo;
      threes := threes + score.hasThree;
    }
    assert lines[..|lines|] == lines;
    checksum := twos * threes;
  }

  // The unit tests of `get_freq_score`: a string may raise both flags, one
  // of them, or neither.

  lemma ScoreAbcdef()
    ensures !HasExactly("abcdef", 2) && !HasExactly("abcdef", 3)
  {
    forall c | c in "abcdef" ensures Occurrences("abcdef", c) == 1 {}
  }

  lemma ScoreBababc()
    ensures HasExactly("bababc", 2) && HasExactly("bababc", 3)
  {
    assert 'a' in "bababc" && Occurrences("bababc", 'a') == 2;
    assert 'b' in "bababc" && Occurrences("bababc", 'b') == 3;
  }

  lemma ScoreAbbcde()
    ensures HasExactly("abbcde", 2) && !HasExactly("abbcde", 3)
  {
    assert 'b' in "abbcde" && Occurrences("abbcde", 'b') == 2;
  }

  lemma ScoreAbcccd()
    ensures !HasExactly("abcccd", 2) && HasExactly("abcccd", 3)
  {
    assert 'c' in "abcccd" && Occurrences("abcccd", 'c') == 3;
  }

  lemma ScoreAabcdd()
    ensures HasExactly("aabcdd", 2) && !HasExactly("aabcdd", 3)
  {
    assert 'd' in "aabcdd" && Occurrences("aabcdd", 'd') == 2;
  }

  lemma ScoreAbcdee()
    ensures HasExactly("abcdee", 2) && !HasExactly("abcdee", 3)
  {
    assert 'e' in "abcdee" && Occurrences("abcdee", 'e') == 2;
  }

  lemma ScoreAbabab()
    ensures !HasExactly("ababab", 2) && HasExactly("ababab", 3)
  {
    assert 'b' in "ababab" && Occurrences("ababab", 'b') == 3;
  }

  /** Positions at which two equal-length strings differ. */
  function Differences(a: string, b: string): nat
    requires |a| == |b|
    decreases |a|
  {
    if a == [] then 0
    else Differences(a[..|a| - 1], b[..|b| - 1]) + (if a[|a| - 1] != b[|b| - 1] then 1 else 0)
  }

  /** Equal lengths, and exactly one position where the characters differ. */
  ghost predicate OneApart(a: string, b: string)
  {
    |a| == |b| && Differences(a, b) == 1
  }

  /** A prefix differs in no more positions than the whole. */
  lemma {:induction false} DifferencesPrefix(a: string, b: string, i: nat)
    requires |a| == |b| && i <= |a|
    ensures Differences(a[..i], b[..i]) <= Differences(a, b)
    decreases |a|
  {
    if i < |a| {
      DifferencesPrefix(a[..|a| - 1], b[..|b| - 1], i);
      assert a[..|a| - 1][..i] == a[..i] && b[..|b| - 1][..i] == b[..i];
    } else {
      assert a[..i] == a && b[..i] == b;
    }
  }

  /** `nearly_identical`: different lengths and equal strings are rejected
      up front; otherwise the pairs of characters are walked, and a second
      difference rejects at once. */
  method NearlyIdentical(a: string, b: string) returns (r: bool)
    ensures r <==> OneApart(a, b)
  {
    if |a| != |b| {
      return false;
    }
    if a == b {
      NoDifferences(a);
      return false;
    }
    var foundDifference := false;
    for i := 0 to |a|
      invariant Differences(a[..i], b[..i]) <= 1
      invariant foundDifference <==> Differences(a[..i], b[..i]) == 1
    {
      assert a[..i + 1][..i] == a[..i] && b[..i + 1][..i] == b[..i];
      if a[i] != b[i] {
        if foundDifference {
          DifferencesPrefix(a, b, i + 1);
          return false;
        } else {
          foundDifference := true;
        }
      }
    }
    assert a[..|a|] == a && b[..|b|] == b;
    NoDifferencesEqual(a, b);
    return true;
  }

  /** A string differs from itself nowhere. */
  lemma {:induction false} NoDifferences(a: string)
    ensures Differences(a, a) == 0
    decreases |a|
  {
    if a != [] {
      NoDifferences(a[..|a| - 1]);
    }
  }

  /** Counting differences does not depend on the order of the two strings. */
  lemma {:induction false} DifferencesSymmetric(a: string, b: string)
    requires |a| == |b|
    ensures Differences(a, b) == Differences(b, a)
    decreases |a|
  {
    if a != [] {
      DifferencesSymmetric(a[..|a| - 1], b[..|b| - 1]);
    }
  }

  /** Being one apart is symmetric. */
  lemma OneApartSymmetric(a: string, b: string)
    ensures OneApart(a, b) == OneApart(b, a)
  {
    if |a| == |b| {
      DifferencesSymmetric(a, b);
    }
  }

  /** A string is never one apart from itself. */
  lemma NotOneApartFromItself(a: string)
    ensures !OneApart(a, a)
  {
    NoDifferences(a);
  }

  /** Equal-length strings differ nowhere exactly when they are equal. */
  lemma {:induction false} NoDifferencesEqual(a: string, b: string)
    requires |a| == |b|
    ensures Differences(a, b) == 0 <==> a == b
    decreases |a|
  {
    if a != [] {
      NoDifferencesEqual(a[..|a| - 1], b[..|b| - 1]);
      assert a == a[..|a| - 1] + [a[|a| - 1]] && b == b[..|b| - 1] + [b[|b| - 1]];
    }
  }

  /** `p` is the one position at which `a` and `b` differ. */
  ghost predicate OnlyDifferenceAt(a: string, b: string, p: int)
    requires |a| == |b|
  {
    0 <= p < |a| && a[p] != b[p] && forall q :: 0 <= q < |a| && q != p ==> a[q] == b[q]
  }

  /** Strings that differ at one position only are one apart. */
  lemma {:induction false} SingleDifference(a: string, b: string, p: int)
    requires |a| == |b| && OnlyDifferenceAt(a, b, p)
    ensures OneApart(a, b)
    decreases |a|
  {
    var n := |a| - 1;
    var a', b' := a[..n], b[..n];
    if p == n {
      assert a' == b' by {
        forall q | 0 <= q < n ensures a'[q] == b'[q] { assert a'[q] == a[q] && b'[q] == b[q]; }
      }
      NoDifferences(a');
    } else {
      assert OnlyDifferenceAt(a', b', p);
      SingleDifference(a', b', p);
    }
  }

  /** Strings one apart differ at exactly one position. */
  lemma {:induction false} DifferenceWitness(a: string, b: string)
    requires OneApart(a, b)
    ensures exists p :: OnlyDifferenceAt(a, b, p)
    decreases |a|
  {
    var n := |a| - 1;
    var a', b' := a[..n], b[..n];
    if a[n] != b[n] {
      NoDifferencesEqual(a', b');
      assert OnlyDifferenceAt(a, b, n) by {
        forall q | 0 <= q < n ensures a[q] == b[q] { assert a'[q] == a[q] && b'[q] == b[q]; }
      }
    } else {
      DifferenceWitness(a', b');
      var p :| OnlyDifferenceAt(a', b', p);
      assert OnlyDifferenceAt(a, b, p) by {
        forall q | 0 <= q < n ensures a'[q] == a[q] && b'[q] == b[q] {}
      }
    }
  }

  /** One apart means: equal lengths, and the strings differ at exactly one position. */
  lemma OneApartAt(a: string, b: string)
    ensures OneApart(a, b) <==> |a| == |b| && exists p :: OnlyDifferenceAt(a, b, p)
  {
    if OneApart(a, b) {
      DifferenceWitness(a, b);
    }
    if |a| == |b| && exists p :: OnlyDifferenceAt(a, b, p) {
      var p :| OnlyDifferenceAt(a, b, p);
      SingleDifference(a, b, p);
    }
  }

  /** The unit tests of `nearly_identical`. */
  lemma NearlyIdenticalExamples()
    ensures OneApart("fghij", "fguij") && OneApart("xghij", "fghij") && OneApart("fghij", "fghix")
    ensures !OneApart("fghij", "fghij") && !OneApart("fghix", "fguij") && !OneApart("abcde", "fguij")
  {
    SingleDifference("fghij", "fguij", 2);
    SingleDifference("xghij", "fghij", 0);
    SingleDifference("fghij", "fghix", 4);
    NotOneApartFromItself("fghij");
    OneApartAt("fghix", "fguij");
    OneApartAt("abcde", "fguij");
  }

  /** `(i, j)` is the first pair, in the order of the nested loops, whose
      lines are one apart. */
  ghost predicate FirstPair(lines: seq<string>, i: int, j: int)
  {
    && 0 <= i < j < |lines| && OneApart(lines[i], lines[j])
    && forall i', j' :: 0 <= i' < j' < |lines| && (i' < i || (i' == i && j' < j)) ==> !OneApart(lines[i'], lines[j'])
  }

  /** `find_nearly_identical_ids`: for each line, compare it with itself and
      every later line, and return the first pair found; `None` where the
      code panics because no pair exists. */
  method FindNearlyIdenticalIds(lines: seq<string>) returns (r: Option<(string, string)>)
    ensures r.None? <==> forall i, j :: 0 <= i < j < |lines| ==> !OneApart(lines[i], lines[j])
    ensures r.Some? ==> exists i, j :: FirstPair(lines, i, j) && r.value == (lines[i], lines[j])
  {
    for i := 0 to |lines|
      invariant forall i', j' :: 0 <= i' < i && i' < j' < |lines| ==> !OneApart(lines[i'], lines[j'])
    {
      for j := i to |lines|
        invariant forall i', j' :: 0 <= i' < j' < |lines| && (i' < i || (i' == i && j' < j)) ==> !OneApart(lines[i'], lines[j'])
      {
        var near := NearlyIdentical(lines[i], lines[j]);
        if near {
          if j == i {
            NotOneApartFromItself(lines[i]);
          }
          assert FirstPair(lines, i, j);
          return Some((lines[i], lines[j]));
        }
      }
    }
    return None;
  }
}
