# Advent of Code 2018, days 1 to 4, in Dafny

A model of the logic of four small day programs, with proofs of what each
one computes:

- **Day 1, frequency changes** (`frequency.dfy`, module `Frequency`): the
  frequency after one pass over a list of changes, and the first frequency
  reached twice when the changes are applied pass after pass.
- **Day 2, box ids** (`box_ids.dfy`, module `BoxIds`): the checksum built
  from ids that contain some letter exactly twice or exactly three times,
  and the search for the first two ids that differ in exactly one position.
- **Day 3, fabric claims** (`fabric.dfy`, `fabric_facts.dfy`,
  `claim_parser.dfy`; modules `Fabric`, `FabricFacts`, `ClaimParser`):
  placing rectangular claims on a sheet as a map from cell to the ids
  covering it, counting the cells claimed twice or more, finding the
  claims that share no cell, and reading a claim from its text
  `#id @ x,y: wxh`.
- **Day 4, guard sleep log** (`guard_log.dfy`, module `GuardLog`): reading
  the shift, fall and wake records into a 60-minute histogram per guard,
  then finding the sleepiest guard and minute.

Three shared modules support them. `Options` holds the `Option` type. In this
model a panic (an `unwrap` or `expect` that fails, an index past the end)
becomes `None`. `Text` holds splitting on a separator character and the
parsing of decimal integers. A number may carry a leading `+` (and, when
signed, a `-`) and must otherwise be all digits. `Sums` holds `Sum` and
`SumFront`, the sum of a sequence of integers, shared by the frequency
changes and the histogram totals.

The operations that change state step by step are methods with loops.
Each is proved against a specification function:

- `PlaceClaims` returns exactly `Placement(claims)`.
- `MinutesAsleepByGuard` returns exactly `Tally` of the naps the records
  describe.
- `LoopFrequency` returns the first repeated running sum.

The properties the programs rely on are lemmas about those functions.

Map iteration order is not fixed. The loops over map keys therefore pick
any remaining key, and their results are proved for every order: the
overlap count, the candidate set, and the day 4 winner up to ties.

On day 3, a claim's row `k` (counted from `y`) is stored at row
`1000 - y - k - 1`, exactly as the code computes it. `FlipIsRectangle`
shows that this flip maps the claim's rectangle onto the cells it covers.

Read directly ("every cell the claim covers holds one id", `Isolated`), a
claim with no area is isolated vacuously. When ids are unique, the code
never lists such a claim, because its candidates come only from cells
holding a single id. The model follows the code
(`ZeroAreaNeverCandidate`). For claims with positive area and unique ids
it proves the two readings agree (`CandidateIffIsolated`,
`CandidatesAreIsolated`).

## Model

| member | source | states |
|---|---|---|
| Fabric.PlaceClaims | day3/src/main.rs:52-71 | the map built by the nested loops is `Placement(claims)`: a key for exactly the covered cells, holding the covering claims' ids in input order |
| Fabric.FootprintCovered | day3/src/main.rs:55-66 | a cell is placed exactly when some claim covers it, and then its list is not empty |
| FabricFacts.FlipIsRectangle | day3/src/main.rs:57-63 | the flipped key `(i, 1000 - r - 1)` is covered exactly when `(i, r)` lies in the claim's rectangle |
| FabricFacts.PlacementKeys | day3/src/main.rs:62-66 | only covered cells become keys, and every stored list is the non-empty list of covering ids |
| FabricFacts.IdsAtAppend | day3/src/main.rs:55-65 | the list of a cell for two batches of claims is the first batch's list followed by the second's |
| FabricFacts.IdsAtMember | day3/src/main.rs:55-65 | an id is in a cell's list exactly when a claim with that id covers the cell |
| FabricFacts.IdsAtOnce | day3/src/main.rs:55-65 | with unique ids, a claim's id occurs exactly once in each cell it covers and nowhere else |
| FabricFacts.IdsAtOrder | day3/src/main.rs:55-65 | of two claims covering a cell, the earlier one's id stands before the later one's |
| FabricFacts.SharedMeansTwo | day3/src/main.rs:55-66 | a list holds two or more ids exactly when two different claims cover the cell |
| FabricFacts.ClaimArea | day3/src/main.rs:57-62 | a claim covers width × height cells, or none when a side is not positive |
| FabricFacts.PlaceOne | day3/src/main.rs:62-65 | one more claim appends its id to each cell it covers, creating missing keys, and changes no other cell |
| FabricFacts.EntriesGrow | day3/src/main.rs:62-65 | the slots one more claim adds are disjoint from the old ones, one at the end of each covered cell's list |
| FabricFacts.PlaceOneMore | day3/src/main.rs:55-66 | the total of the list lengths grows by width × height per claim, and not at all for a claim with a side that is not positive |
| Fabric.CountOverlaps | day3/src/main.rs:15-21 | the count is the number of keys whose list holds at least two ids, whatever the visiting order |
| FabricFacts.OverlapMeaning | day3/src/main.rs:15-21 | a cell counts as an overlap exactly when two different claims cover it |
| FabricFacts.OverlapMonotone | day3/src/main.rs:15-21 | one more claim never removes an overlap cell, so the count never drops |
| FabricFacts.DisjointNoOverlap | day3/src/main.rs:15-21 | claims that pairwise share no cell give no overlap |
| Fabric.IsolatedCandidates | day3/src/main.rs:25-38 | after the insert pass and the remove pass, the candidates are the ids found alone in some cell and in no shared cell, whatever the visiting order |
| FabricFacts.CandidateIsClaim | day3/src/main.rs:25-30 | every candidate is the id of a claim covering at least one cell |
| FabricFacts.CandidateIffIsolated | day3/src/main.rs:25-38 | with unique ids, a claim with positive area is a candidate exactly when each of its cells holds only its id |
| FabricFacts.ZeroAreaNeverCandidate | day3/src/main.rs:25-38 | with unique ids, a claim with a side that is not positive is never a candidate |
| FabricFacts.CandidatesAreIsolated | day3/src/main.rs:25-38 | with unique ids, the candidate set equals the ids of the claims with positive area none of whose cells is shared |
| FabricFacts.DisjointAllCandidates | day3/src/main.rs:25-38 | with unique ids and pairwise disjoint claims, every claim with positive area is a candidate |
| FabricFacts.OverlapPermutation | day3/src/main.rs:14-21 | placing the same claims in another order gives the same overlap cells and the same count |
| FabricFacts.CandidatesPermutation | day3/src/main.rs:14-38 | placing the same claims in another order gives the same candidate set |
| FabricFacts.IdsAtPermutation | day3/src/main.rs:55-66 | placing the claims in another order puts the same ids, as often, in each cell's list |
| FabricFacts.PlacementPermutation | day3/src/main.rs:52-71 | placing the claims in another order gives the same keys, each list holding the same ids |
| FabricFacts.SameAnalysis | day3/src/main.rs:15-38 | maps with the same keys and lists holding the same ids give the same overlap cells, sole ids and shared ids |
| FabricFacts.IdenticalClaims | day3/src/main.rs:14-38 | two claims on the same rectangle make every cell of it an overlap, so the count is the area, and leave no candidate |
| FabricFacts.NoClaims | day3/src/main.rs:14-38 | no claims give an empty map, a count of 0 and no candidate |
| FabricFacts.ExampleFabric | day3/src/main.rs:107-127 | in the unit test `(2, 998)` is absent, `(3, 998)` holds `[2]` and the four cells `{3,4}×{995,996}` hold `[1, 2]` |
| FabricFacts.ExampleAnalysis | day3/src/main.rs:107-127 | in the unit test the overlap cells are exactly `{3,4}×{995,996}`, their count is 4, and the only candidate is claim 3 |
| ClaimParser.ParseClaim | day3/src/main.rs:73-100 | a parsed claim takes its id from word 0 after its first character, x and y from the first two comma pieces of word 2 without its last character, and width and height from the first two `x` pieces of word 3, each as a signed number |
| ClaimParser.ParseClaimFails | day3/src/main.rs:74-90 | a line is rejected exactly when it has fewer than four words, an empty word 0 or word 2, an id that is not a number, or fewer than two coordinate (or side) pieces, or any such piece that is not a number |
| ClaimParser.ParseAll | day3/src/main.rs:78-88 | the pieces parse to a list of the same length with each piece's value, and fail exactly when one piece fails |
| ClaimParser.ParseFormat | day3/src/main.rs:73-100 | parsing `#id @ x,y: wxh` written from non-negative integers gives back that claim |
| ClaimParser.ParseExample | day3/src/main.rs:130-134 | `#123 @ 3,2: 5x4` parses to the claim 123 at 3,2 of 5 by 4 |
| ClaimParser.ShortLineFails | day3/src/main.rs:74-85 | a line of fewer than four words fails, where the code indexes past the word list |
| Text.Split | day3/src/main.rs:74 | splitting gives at least one piece, and no piece contains the separator |
| Text.JoinSplit | day3/src/main.rs:74 | joining the pieces with the separator gives back the text |
| Text.SplitJoin | day3/src/main.rs:74 | splitting pieces joined by a separator they do not contain gives back the pieces |
| Text.ParseSigned | day3/src/main.rs:75 | a signed number parses exactly when it is an optional sign followed by at least one digit; a minus sign gives a value of at most 0 |
| Text.ParseUnsigned | day4/src/main.rs:90-91 | an unsigned number parses exactly when it is an optional plus sign followed by at least one digit |
| Text.ParseDigits | day3/src/main.rs:75 | the decimal digits of a natural number parse back to it |
| Text.LeadingZeros | day4/src/main.rs:90-91 | leading zeros do not change the value of a digit string |
| Text.ParsePadded | day4/src/main.rs:90-91 | a zero-padded number, such as a two-digit minute, parses to its value with either parser |
| Text.ParseSignedDigits | day1/src/main.rs:18 | `-` before the digits negates the value and `+` keeps it; the unsigned parser rejects `-` |
| Text.ParseExamples | day4/src/main.rs:90-91 | `05` and `00` parse to the minutes 5 and 0, and `-12` and `+7` to the changes -12 and 7 |
| BoxIds.FreqScore | day2/src/main.rs:51-68 | `has_two` is 1 exactly when some character occurs exactly twice, else 0; `has_three` likewise for three times |
| BoxIds.ScoreAbcdef | day2/src/main.rs:154-157 | "abcdef" raises neither flag |
| BoxIds.ScoreBababc | day2/src/main.rs:158-161 | "bababc" raises both flags |
| BoxIds.ScoreAbbcde | day2/src/main.rs:162-165 | "abbcde" raises `has_two` only |
| BoxIds.ScoreAbcccd | day2/src/main.rs:166-169 | "abcccd" raises `has_three` only |
| BoxIds.ScoreAabcdd | day2/src/main.rs:170-173 | "aabcdd" raises `has_two` only |
| BoxIds.ScoreAbcdee | day2/src/main.rs:174-177 | "abcdee" raises `has_two` only |
| BoxIds.ScoreAbabab | day2/src/main.rs:178-181 | "ababab" raises `has_three` only |
| BoxIds.Checksum | day2/src/main.rs:19-31 | the checksum is the number of lines with a letter exactly twice times the number with a letter exactly three times |
| BoxIds.NearlyIdentical | day2/src/main.rs:70-95 | the answer is true exactly when the strings have equal length and differ at exactly one position, so different lengths and equal strings give false |
| BoxIds.DifferencesPrefix | day2/src/main.rs:84-92 | a second difference found early means more than one difference in all |
| BoxIds.NoDifferencesEqual | day2/src/main.rs:80-82 | equal-length strings differ nowhere exactly when they are equal |
| BoxIds.OneApartSymmetric | day2/src/main.rs:70-95 | swapping the two strings does not change the answer |
| BoxIds.NotOneApartFromItself | day2/src/main.rs:80-82 | a string is never nearly identical to itself |
| BoxIds.SingleDifference | day2/src/main.rs:84-94 | strings of equal length that differ at one position only are nearly identical |
| BoxIds.DifferenceWitness | day2/src/main.rs:84-94 | nearly identical strings differ at one position and agree at all others |
| BoxIds.OneApartAt | day2/src/main.rs:70-95 | nearly identical means: equal lengths, and exactly one position where the characters differ |
| BoxIds.NearlyIdenticalExamples | day2/src/main.rs:125-150 | the three true and three false cases of the unit test |
| BoxIds.FindNearlyIdenticalIds | day2/src/main.rs:33-43 | the result is the pair `(lines[i], lines[j])` for the first `i < j`, in loop order, that is nearly identical, and `None` exactly when there is none |
| GuardLog.Step | day4/src/main.rs:69-97 | a six-word record never fails; a record adds at most one nap, after the old ones, belonging to the guard on duty and, when not empty, ending by minute 60 |
| GuardLog.Run | day4/src/main.rs:69-98 | reading records only appends naps, at most one per record |
| GuardLog.MinutesAsleepByGuard | day4/src/main.rs:64-101 | the results are `Tally` of the naps the records describe, and `None` exactly when reading some record panics |
| GuardLog.Tally | day4/src/main.rs:85-95 | every histogram has 60 slots, none negative |
| GuardLog.StepEffect | day4/src/main.rs:69-97 | a six-word record sets the guard on duty to word 3 and a falls record sets the start minute to characters 3..5 of word 1, neither touching the results; a wake record adds the guard on duty as a key and adds one to exactly its slots from start to wake, all else unchanged |
| GuardLog.TallyNap | day4/src/main.rs:85-95 | a nap adds its guard as a key and raises exactly the minutes it covers in that guard's histogram |
| GuardLog.StoreHistogram | day4/src/main.rs:86-95 | storing the raised histogram of the guard on duty gives the tally with the new nap |
| GuardLog.SleepersHaveNaps | day4/src/main.rs:80-88 | a guard is a key exactly when it has a nap, that is when a wake record was read while it was on duty |
| GuardLog.NeverAsleep | day4/src/main.rs:85-88 | a guard without naps has an all-zero histogram, as created |
| GuardLog.RunWithinHour | day4/src/main.rs:93-95 | a log that reads without panic only has naps ending within the hour |
| GuardLog.HistogramSum | day4/src/main.rs:26 | a guard's histogram sums to the total length of its naps |
| GuardLog.TallySums | day4/src/main.rs:26 | for a log that reads without panic, each guard's histogram sums to the minutes it slept |
| GuardLog.MaxMinute | day4/src/main.rs:47-55 | the minute returned is the earliest slot holding the largest count, or 0 when no count is positive |
| GuardLog.SleepiestGuard | day4/src/main.rs:16-30 | the winner has the largest total of all guards when some total is positive, and is the empty name otherwise |
| GuardLog.SleepiestMinute | day4/src/main.rs:15-55 | part one panics exactly when no total is positive and the empty name is not a key; otherwise it gives a guard with the largest positive total, or the empty name when no total is positive, with its earliest peak minute |
| GuardLog.MostFrequentMinute | day4/src/main.rs:19-41 | the count is the largest value in any histogram, at the returned guard and minute, with the earliest such minute in that guard's histogram |
| Frequency.CalculateFrequency | day1/src/main.rs:16-19 | the fold from 0 equals the sum of the changes, and no changes give 0 |
| Frequency.FoldSum | day1/src/main.rs:18 | folding from an accumulator adds the sum of the changes to it |
| Frequency.FirstPass | day1/src/main.rs:29-30 | during the first pass the running frequency is the sum of the changes seen so far |
| Frequency.CarryAcrossPasses | day1/src/main.rs:24-30 | the frequency is not reset between passes: each pass adds the sum of the changes |
| Frequency.LoopFrequency | day1/src/main.rs:21-39 | a result is the first running frequency equal to an earlier one, all before it pairwise distinct; no result means no repeat in the passes given |
| Frequency.Remember | day1/src/main.rs:32-36 | before each check the remembered set is exactly the frequencies produced so far, all distinct |
| Frequency.FoundRepeat | day1/src/main.rs:32-34 | a frequency already remembered is the first repeat |
| Frequency.NoEarlierRepeat | day1/src/main.rs:32-34 | before the first repeat no frequency repeats an earlier one |
| Frequency.FirstRepeatUnique | day1/src/main.rs:32-34 | the first repeat is unique |
| Frequency.RisingNeverRepeats | day1/src/main.rs:26-38 | changes that are all positive never repeat a frequency, so the search never ends |
| Frequency.PlusOneMinusOne | day1/src/main.rs:23-34 | for `+1, -1` the frequencies are 1, 0, 1, so the answer is 1: the starting 0 is not remembered |

## Left out

- File reading, `BufReader`, `seek` and the printing in every `main`. The inputs are sequences of lines, of claims or of parsed changes.
- The sorting of the day 4 records before they are read: `MinutesAsleepByGuard` takes the records in the order given.
- `isize` and `usize` overflow. Integers are unbounded, so `1000 - y`, the running frequency and the checksum never wrap or panic.
- Rust's byte lengths and byte slicing of strings. Strings are sequences of characters, as for ASCII text.
- Rust integer parsing beyond an optional sign and decimal digits, and its range limits.
- Frequency.LoopFrequency: the Rust loop may run forever (for no changes, or changes that never bring a frequency back). The model stops after a given number of passes and then answers `None`.
- GuardLog.SleepiestGuard, GuardLog.SleepiestMinute and GuardLog.MostFrequentMinute: the code's winner among guards with equal totals or equal peaks depends on the map's iteration order. The contracts say only that a guard with the largest value wins.
- GuardLog.MinutesAsleepByGuard: the code updates the guard's histogram in place, through a reference into the map. The model copies the histogram out, updates the copy and stores it back.
- Fabric.PlaceClaims: the same for the cell lists, which the model rebuilds with the new id appended instead of pushing in place.
- The day 2 test on the puzzle input file (`test_part_one`, `test_part_two`): that input is not part of this model.
- The remaining day 3 parsing tests (day3/src/main.rs:135-146) are instances of `ParseFormat` and have no lemma of their own.
