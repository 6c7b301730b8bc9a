# Elevator path engine

A model of the path engine of `main.py`, an elevator-trip calculator. One input
line `START:O1-D1,...,On-Dn` is a *command*: a start floor and an ordered list
of *transitions* (rides from an origin floor to a destination floor). From a
command the engine builds a *path*, the list of floors visited plus the
distance travelled, in one of two modes:

- **Mode A** (`process`) visits the start floor and then every origin and
  destination literally, in order, accumulating the distance ride by ride.
- **Mode B** (`optimal_process` / `compress_transitions`) prefixes the rides
  with a synthetic ride from the start floor to the first origin, cuts them
  into maximal runs of one direction (`itertools.groupby` on `direction`),
  collects the floors of each run into a set, sorts each set (descending for
  `down`, ascending otherwise), chains the sorted runs and collapses
  consecutive repeats. Its distance is the sum of the gaps between consecutive
  floors (`pairwise_abs`).

Modules:

| module | file | contents |
|---|---|---|
| `Wrappers` | wrappers.dfy | `Option`, `Result` |
| `IterTools` | itertools.dfy | `groupby` as `GroupBy` with its maximal-run characterisation, `chain.from_iterable` as `Chain` |
| `Text` | text.dfy | `str.split` with a one-character separator, `int()` on a decimal token, `str()` on an int |
| `Elevator` | elevator.dfy | the direction enumeration, `Transition` with its derived direction, `Command` |
| `FloorOps` | floor_ops.dfy | `remove_consecutive_duplicates`, `pairwise_abs`, `sort_floors` |
| `Paths` | path.dfy | the `Path` class (fields `floors`, `distance`) |
| `CommandParser` | parser.dfy | `parse_command_string` as a method proved equal to a pure parser, and a canonical formatter the parser inverts |
| `NaivePath` | naive.dfy | mode A |
| `OptimalPath` | optimal.dfy | mode B |

`Path` is a class because both builders fill in its fields; transitions and
commands are values (the parser's appends to `command.transitions` become a
local sequence that is wrapped in a `Command` at the end).

Two properties one might expect of mode B do not hold for `main.py`:

- Mode B can travel farther than mode A. `OptimalPath.CompressedCanTravelFarther`
  proves that for every command `s:s-b,c-d` with `c < d < s < b` mode B is
  longer than mode A exactly when `2s > b + d`; for `5:5-6,0-1` mode B travels
  11 floors and mode A 8 (`OptimalPath.CompressedFartherExample`).
- Mode B's list need not begin at the start floor, although the docstring of
  `main` (main.py:182) says the list of floors begins with the initial floor.
  `OptimalPath.CompressedMayNotStartAtStartFloor` proves that for
  `s:a-b,c-d` with `c < d < s < a < b` mode B's list begins at `c`.

For `0:3-3` the synthetic ride `0-3` forms an upward group before the
sideways group of the ride `3-3`, and mode B visits `0 3`;
`OptimalPath.CompressedSideways` states this for every `start:f-f` with
`start < f`.

## Model

| member | source | states |
|---|---|---|
| Elevator.Transition.Direction | main.py:43-49 | the direction is down exactly when origin > destination, up exactly when origin < destination, sideways exactly when they are equal |
| Elevator.FloorsOf | main.py:152-155 | a floor is in the set exactly when some transition leaves from it or arrives at it |
| Elevator.FloorsOfConcat | main.py:152-155 | the floors of two concatenated ride lists are the union of their floors |
| Text.Split | main.py:73 | `s.split(sep)` has one more part than `s` has separators and no part holds the separator |
| Text.JoinSplit | main.py:73 | joining the parts of a split with the separator gives the string back |
| Text.SplitJoin | main.py:78 | splitting a join of separator-free parts gives the parts back |
| Text.ParseInt | main.py:74 | a token is accepted exactly when it is one or more decimal digits, optionally after a `-`; its value is the decimal value of the digits, negated after a `-` |
| Text.ParseIntFormatInt | main.py:74 | `int(str(n)) == n` for every integer |
| CommandParser.ParseEach | main.py:78-81 | the items are all accepted exactly when every item is, the result then holds one value per item in order, and a failure is the failure of one of the items |
| CommandParser.ParseFloor | main.py:79 | a floor token is accepted exactly when it is an integer token, with the digits' decimal value (negated after a `-`); otherwise the error names the token |
| CommandParser.ParseTransition | main.py:79 | an item is accepted exactly when it splits on `-` into two integer tokens, and then gives the ride between their two values; an item whose tokens are all integers but not two of them is `NotAPair`; an accepted item holds exactly one `-`, so neither floor is negative |
| CommandParser.ParseItems | main.py:76-83 | the appending loop gives exactly the per-item parse: the transitions in order, or the first item's failure |
| CommandParser.Parse | main.py:68-83 | an accepted line holds exactly one `:` and gives at least one transition; `ParseAccepts` and `ParseBuilds` state which lines are accepted and what they give |
| CommandParser.ParseCommandString | main.py:68-83 | the parser method agrees with the pure parser and every accepted line has at least one transition |
| CommandParser.ParseAccepts | main.py:73-81 | a line is accepted if and only if it holds exactly one `:`, an integer before it and an accepted `O-D` pair in every comma-separated item after it |
| CommandParser.ParseBuilds | main.py:73-83 | an accepted line gives the integer before the `:` as start floor and one transition per item, the i-th transition being the i-th item's pair |
| CommandParser.ParsedCommandShape | main.py:76-83 | an accepted line gives at least one transition and no negative origin or destination |
| CommandParser.ParseFormatRoundTrip | main.py:68-83 | parsing the canonical line of any parsable command gives that command back |
| Paths.Path.constructor | main.py:58-60 | a new path has no floors and distance 0, which is consistent |
| NaivePath.Stops | main.py:106-110 | the stops of n rides are 2n floors, origin then destination for each ride in order |
| NaivePath.NaiveFloors | main.py:104-110 | mode A visits 1 + 2n floors: the start floor, then origin and destination of ride i at positions 2i+1 and 2i+2 |
| NaivePath.RideDistance | main.py:104-111 | the distance accumulated ride by ride is non-negative; `RideDistanceIsPairwiseAbs` equates it with `pairwise_abs` of the visited floors |
| NaivePath.RideDistanceIsPairwiseAbs | main.py:104-111 | the distance accumulated ride by ride equals `pairwise_abs` of the visited floors |
| NaivePath.Process | main.py:97-113 | `process` returns a fresh path whose floors are mode A's floors and whose distance is the ride-by-ride sum, equal to `pairwise_abs` of the floors, non-negative and 0 without rides |
| NaivePath.NaiveFloorsElems | main.py:104-110 | mode A visits exactly the start floor and the floors the rides name |
| FloorOps.RemoveConsecutiveDuplicates | main.py:115-116 | the result has no two equal neighbours, is no longer than the input and keeps the first element |
| FloorOps.DedupCons | main.py:115-116 | an element is dropped when it repeats the one after it and kept otherwise |
| FloorOps.DedupElems | main.py:115-116 | collapsing repeats keeps the set of values |
| FloorOps.DedupSubsequence | main.py:115-116 | the result is a subsequence of the input |
| FloorOps.DedupFixedPoints | main.py:115-116 | a sequence is unchanged if and only if it has no two equal neighbours |
| FloorOps.DedupIdempotent | main.py:115-116 | collapsing twice is collapsing once |
| FloorOps.PairwiseAbs | main.py:118-120 | the distance is non-negative and 0 for at most one floor |
| FloorOps.PairwiseAbsSnoc | main.py:118-120 | appending a floor adds its gap to the previous last floor |
| FloorOps.PairwiseAbsDedup | main.py:115-120 | collapsing repeats does not change the distance |
| FloorOps.PairwiseAbsCoversSpan | main.py:118-120 | the distance is at least the gap between any two visited floors |
| FloorOps.PairwiseAbsMonotone | main.py:118-120 | along a strictly monotone list the distance is the gap between its ends |
| FloorOps.SortedAscending | main.py:131 | `sorted(floors)` is strictly ascending, holds exactly the set's elements and has one entry per element |
| FloorOps.SortedAscendingUnique | main.py:131 | the strictly ascending list of a set's elements is unique |
| FloorOps.ReversedFacts | main.py:130 | reversing keeps the elements, swaps strictly ascending and strictly descending, and is an involution |
| FloorOps.SortFloors | main.py:128-131 | the result holds exactly the set's elements, each once, strictly descending for down and strictly ascending for up and sideways |
| FloorOps.SortFloorsUnique | main.py:128-131 | any list with those properties is the result |
| FloorOps.SortedRunIsShortest | main.py:128-131 | no list that visits every floor of the set is shorter than the sorted one |
| IterTools.GroupBy | main.py:143-145 | the groups are non-empty runs of one key that concatenate to the input, neighbouring groups differ in key, there are at most as many groups as items, and a non-empty input gives a first group with the first item's key |
| IterTools.GroupByUnique | main.py:143-145 | every grouping into maximal runs of one key is the one `GroupBy` returns |
| IterTools.ChainAppend | main.py:158-159 | chaining one more list appends its items |
| IterTools.Chain | main.py:158-159 | `chain.from_iterable`: the lists one after another, as `ChainAppend`, `ChainOfTwo` and `ChainOfThree` state |
| IterTools.ChainOfTwo | main.py:158-159 | chaining two lists concatenates them |
| IterTools.ChainOfThree | main.py:158-159 | chaining three lists concatenates them |
| OptimalPath.GroupByDirection | main.py:143-145 | the rides are cut into non-empty runs of one direction that concatenate to the rides, neighbouring runs go different directions, and the first run has the first ride's direction |
| OptimalPath.StartingTransition | main.py:139-141 | the synthetic ride from the start floor to the first origin; `StartingFloors` states what it adds |
| OptimalPath.StartingFloors | main.py:139-144 | the synthetic ride adds exactly the start floor to the floors the rides name |
| OptimalPath.DirectionKey | main.py:145 | the grouping key `lambda x: x.direction`, the ride's direction as `Elevator.Transition.Direction` classifies it |
| OptimalPath.SortedRun | main.py:152-156 | a group's run holds exactly the group's floors, strictly descending for a down group and strictly ascending otherwise |
| OptimalPath.SortedRuns | main.py:151-156 | one run per group, in group order, each holding exactly its group's floors monotone in its direction |
| OptimalPath.Compressed | main.py:134-161 | mode B's floors; `CompressedCharacterization` pins them down independently of how they are computed, `CompressedFloors` says which floors they are and `CompressedDistance` how far they travel |
| OptimalPath.CollectFloors | main.py:152-155 | the inner loop's set holds exactly the floors the group's rides name |
| OptimalPath.CompressTransitions | main.py:134-161 | the loop gives mode B's floors, with no two equal neighbours and exactly the start floor and the floors the rides name |
| OptimalPath.CompressedFloors | main.py:139-161 | mode B visits exactly the start floor and the floors the rides name |
| OptimalPath.SameFloorsAsNaive | main.py:104-161 | both modes visit the same set of floors |
| OptimalPath.CompressedDistance | main.py:158-175 | collapsing repeats between runs costs nothing: mode B's distance is the travel along the chained sorted runs |
| OptimalPath.SortedRunsUnique | main.py:151-156 | any run list with each group's floors, once each and monotone in the group's direction, is the one the loop builds |
| OptimalPath.CompressedCharacterization | main.py:139-161 | mode B's floors are the collapsed chain of any maximal direction grouping's monotone floor runs, independently of how they are computed |
| OptimalPath.CompressedSideways | main.py:139-161 | `start:f-f` with `start < f` gives `[start, f]` and distance `f - start` |
| OptimalPath.CompressedThreeRuns | main.py:139-161 | up, down, up as in `0:5-2,2-8` gives `[start, a, b, c]` with the three gaps as distance |
| OptimalPath.CompressedCanTravelFarther | main.py:97-177 | for `s:s-b,c-d` with `c < d < s < b` mode B visits `[s, c, d, s, b]` (distance `s + b - 2c`), mode A travels `2b - s - 2c + d`, and mode B is longer exactly when `2s > b + d` |
| OptimalPath.CompressedFartherExample | main.py:97-177 | for `5:5-6,0-1` mode B travels 11 floors and mode A 8 |
| OptimalPath.CompressedMayNotStartAtStartFloor | main.py:139-161 | for `s:a-b,c-d` with `c < d < s < a < b` mode B visits `[c, d, s, a, b]`, which does not begin at the start floor |
| OptimalPath.OptimalProcess | main.py:165-177 | `optimal_process` returns a fresh path whose floors are mode B's and whose distance is `pairwise_abs` of them |

## Left out

- `main` (main.py:179-193): command-line dispatch, the case-insensitive mode string, printing and the "Mode not recognized" message are console I/O.
- `commands` (main.py:86-94): reading the file and yielding one command per line is file I/O; each line goes through `CommandParser.Parse`.
- Logging (main.py:13-16, 80, 93, 147, 173) only has side effects.
- The `__str__` methods of `Command`, `Transition` and `Path` (main.py:29-31, 51-52, 62-65) are debug and output formatting.
- `get_next` (main.py:122-126) is called by nothing in the engine.
- Text.ParseInt: Python's `int()` also accepts surrounding whitespace and a leading `+`; a token is modelled as an optional `-` followed by ASCII digits.
- The enumeration `enum.Enum('up', 'down', 'sideways')` (main.py:17) is read as a closed three-valued type.
- OptimalPath.CompressTransitions: collects the sorted runs in a local sequence instead of the `floors` field of a scratch `Path` (main.py:149, 156), which holds lists of floors there rather than floors.
- OptimalPath.CompressTransitions: requires at least one transition; `compress_transitions` raises `IndexError` on an empty list (main.py:141), a command the parser never produces.
- OptimalPath.OptimalProcess: requires at least one transition, for the same reason.
- Python exceptions are modelled as `ParseError` values: `NotOneColon` for the tuple unpacking at main.py:73, `NotAnInteger` for `int()`, `NotAPair` for the unpacking at main.py:79.
- No property relating the distances of the two modes in general is stated: mode B can be longer than mode A (see `OptimalPath.CompressedCanTravelFarther`).
