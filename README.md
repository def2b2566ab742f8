# Timetable planner, modelled in Dafny

The planner builds a weekly university timetable. It has three parts, each modelled here:

- **Reading the catalog** (`input_course_info.py`). For each course the user types lines such as `Tuesday 10:00AM - 12:00PM`. Each line becomes a `LectureSlot`. The slots are grouped `sections` at a time into *packages*, which are slots that must be taken together. A package whose signature was already entered for the course is dropped.
- **Scoring** (`penalty_functions.py`). A complete list of lectures gets a *total penalty*, the sum of six rules:
  - overlapping pairs;
  - back-to-back pairs;
  - hours before 11:00 or after 18:00;
  - tutorials early in the week;
  - days with a single lecture;
  - Friday lectures.
- **Search** (`timetable_generator_v2.py`). The planner walks every choice of one package per course with `itertools.product`. It keeps the choices whose total is at most `MAX_CONSIDERATION` (5000). It sorts them greatest penalty first and reports the last `max_output` of them, which are the best ones.

Modules:

| file | module | models |
|---|---|---|
| `exceptions.dfy` | `Exceptions` | the exceptions the code raises (ValueError, KeyError, EOFError) as values, and `Result`, a value or an exception |
| `options.dfy` | `Options` | `Option`, for a lookup or conversion that may find nothing |
| `text.dfy` | `Text` | `str.split()`, `str.strip()`, `s.split(':')[0]`, `s[-2:]`, `str(n)` and `int(s)` |
| `sequences.dfy` | `Sequences` | flattening, first-occurrence deduplication by a key, subsequences, sums over a list |
| `time_model.dfy` | `TimeModel` | `time_functions.py`: hour conversions and the `LectureSlot` record with `day_map` |
| `course_types.dfy` | `CourseTypes` | `datatype_constants.py`: the type aliases, and the `CourseOptions` dictionary as a class |
| `penalty.dfy` | `Penalty` | `penalty_functions.py`: every rule, its loop as a method, and the total |
| `search.dfy` | `Search` | `timetable_generator_v2.py`: flattening, product, scoring, deduplication, sorting and slicing |
| `catalog.dfy` | `Catalog` | `input_course_info.py`: parsing a line, signatures, and the reading loop |

Form of the model:

- Python loops that build a value are methods with loop invariants. Each is proved equal to a specification function, and the properties are proved about that function:
  - `GetAllLecturePairs`, `CountRelatedPairs` and the other penalty loops;
  - `UnpackageAllCourses`, `GenerateAllSelections` and `ReadLectureTimeslots`.
- The two structures the code mutates in place are classes:
  - the `courses` dictionary is `CourseTypes.CourseOptions`, an insertion-ordered `names` sequence plus a `map`;
  - the `all_selections` list is `Search.RatedSelections`.
- Interactive input is given as the sequence of lines the user types.

## Model

| member | source | states |
|---|---|---|
| `TimeModel.DayNumber` | time_functions.py:45-51 | `day_map` has an entry exactly for the five week days, and maps each to its 1-based position in the week |
| `TimeModel.MakeSlot` | time_functions.py:38-43 | the constructor succeeds iff the day is a week day, else raises KeyError; the slot keeps the given name, day and hours, and its day number matches its day |
| `TimeModel.MakeSlotOfFields` | time_functions.py:38-43 | every slot the constructor can build is rebuilt from its own fields |
| `TimeModel.ConvertTo12h` | time_functions.py:11-15 | the text ends in "PM" exactly for hours from 12 on, otherwise in "AM" |
| `TimeModel.ConvertTo24h` | time_functions.py:28-31 | succeeds iff the text before the first ':' is an integer (else ValueError); the result is 0..23, congruent mod 12 to that integer, and at least 12 exactly when the text ends in "PM" |
| `TimeModel.ConvertTo12hExamples` | time_functions.py:4-9 | the three doctests of `convert_to_12h` |
| `TimeModel.ConvertTo24hExamples` | time_functions.py:21-26 | the three doctests of `convert_to_24h`, and "12:00AM" is hour 0 |
| `TimeModel.ConvertTo24hIgnoresMinutes` | time_functions.py:28-31 | only the text before the first ':' and the last two characters affect the result |
| `TimeModel.ConvertRoundTrip` | time_functions.py:1-31 | converting any hour 0..23 to 12-hour text and back gives the same hour |
| `TimeModel.HourTextConverts` | time_functions.py:28-31 | `str(k)` followed by ":00PM" or ":00AM", for k up to 12, converts to k mod 12, plus 12 for PM |
| `Text.Split` | input_course_info.py:11 | every token is a non-empty run without whitespace; the lemmas below fix the tokens of every string |
| `Text.SplitSkipsWhitespace` | input_course_info.py:11 | leading whitespace of any length and kind does not change the tokens |
| `Text.SplitWordRun` | input_course_info.py:11 | a word followed by any non-empty whitespace run is one token, and splitting continues after the run |
| `Text.SplitWord` | input_course_info.py:11 | a single word is its only token |
| `Text.SplitJoin` | input_course_info.py:11 | a word, a space and more text split into the word followed by the tokens of the rest |
| `Text.Strip` | input_course_info.py:11 | the result is no longer than the input and neither starts nor ends with whitespace |
| `Text.StripTrims` | input_course_info.py:11 | the result is a slice of the input with only whitespace before and after it, so strip removes the surrounding whitespace and nothing else |
| `Text.BeforeFirst` | time_functions.py:28 | the result is the longest prefix without ':', so the input ends there or has ':' next |
| `Text.NatToString` | time_functions.py:12 | `str(n)` of a non-negative n is a non-empty string of digits |
| `Text.ParseInt` | time_functions.py:28 | no contract of its own: `int()` of surrounding whitespace, an optional sign and decimal digits, otherwise ValueError (None); `ParseIntOfIntToString` states its round trip |
| `Text.ParseIntOfIntToString` | time_functions.py:28 | `int(str(n)) == n` for every integer n |
| `Text.DigitsValueOfNatToString` | time_functions.py:28 | the decimal value of `str(n)` is n |
| `CourseTypes.ValuesIn` | timetable_generator_v2.py:35 | one option list per course name, in the order of the names |
| `CourseTypes.CourseOptions.Values` | timetable_generator_v2.py:35 | `courses.values()` lists each course's packages in insertion order |
| `CourseTypes.CourseOptions.constructor` | input_course_info.py:60 | a new dictionary is empty |
| `CourseTypes.CourseOptions.AppendPackage` | input_course_info.py:50 | appends the package to the end of the course's list; nothing else changes |
| `Catalog.ProcessInput` | input_course_info.py:6-17 | fails iff the stripped line is not four tokens, either hour does not parse, or the day is not a week day; it raises KeyError only in the last case, otherwise ValueError; a slot it returns belongs to the course, is well formed, has hours 0..23, takes its day from the first token and its hours from the second and fourth |
| `Catalog.ProcessInputOfTokens` | input_course_info.py:11-17 | any line of four tokens whose second and fourth parse gives the constructor's result for the first token and those hours; the third token is ignored |
| `Catalog.LooseLine` | input_course_info.py:11-17 | a day, any whitespace run, and three more words, any third word, give the constructor's result for the day and the two hours |
| `Catalog.ProcessInputLooseLine` | input_course_info.py:11-17 | a no-break space after the day and "to" as the third token still give the documented example's slot |
| `Catalog.ProcessInputRoundTrip` | input_course_info.py:6-17 | the typed line of any well-formed slot with hours 0..23 parses back to that slot |
| `Catalog.ProcessInputExample` | input_course_info.py:8 | the documented example line gives the Tuesday 10-12 slot of CSCA08 |
| `Catalog.SlotLineTokens` | input_course_info.py:11 | the typed line of a slot splits into its day, start text, "-" and end text |
| `Catalog.LineTokens` | input_course_info.py:11 | "day begin - end" made of three words strips to itself and splits into four tokens |
| `Catalog.HourTextIsWord` | time_functions.py:11-15 | the 12-hour text of an hour of the day is a single non-empty word |
| `Catalog.Signature` | input_course_info.py:32 | no contract of its own: course name, then `str` of day number, start and end hour; `SignatureInjective` and `SignatureCollision` state when it identifies a slot |
| `Catalog.GetInfo` | input_course_info.py:29-32 | no contract of its own: the set of the slots' signatures; `GetInfoSameSlots` and `GetInfoDistinguishes` state what it distinguishes |
| `Catalog.GetInfoSameSlots` | input_course_info.py:29-32 | the signature set ignores slot order and repetition |
| `Catalog.GetInfoDistinguishes` | input_course_info.py:29-32 | for slots of one course with start before end within a day, two packages have the same signature set iff they hold the same slots |
| `Catalog.SignatureInjective` | input_course_info.py:32 | under those conditions one slot's signature text determines the slot |
| `Catalog.DayAndHoursDetermine` | input_course_info.py:32 | the concatenated day number, start and end digits determine all three when start < end <= 23 |
| `Catalog.HoursDetermine` | input_course_info.py:32 | `str(s) + str(e)` determines s and e when 0 <= s < e <= 23 |
| `Catalog.SignatureCollision` | input_course_info.py:32 | without the start-before-end condition two different slots share a signature |
| `Catalog.GroupSize` | input_course_info.py:47 | a group is closed after `sections` slots, and always after at least one |
| `Catalog.ChunkCorrect` | input_course_info.py:43-52 | every closed group has the group size, and the closed groups followed by the open one are all the slots, with the open group shorter than the group size |
| `Catalog.ChunkSnoc` | input_course_info.py:46-52 | one more slot either closes the open group, adding it to the closed ones and emptying the open one, or only extends the open group |
| `Catalog.ParseAll` | input_course_info.py:46 | the slots parsed so far all belong to the course, are well formed, and number at most the lines |
| `Catalog.ParseAllStops` | input_course_info.py:45-53 | after a line fails, later lines change nothing |
| `Catalog.FirstEmpty` | input_course_info.py:44-45 | the position of the first empty line: all lines before it are non-empty |
| `Catalog.ReadLectureTimeslots` | input_course_info.py:35-53 | the only change to the dictionary is that the course's list gains the deduplicated complete groups of the slots parsed before the first empty line or failure; the result is that line's exception, EOFError at the end of input, or the number of lines consumed |
| `Catalog.AddSlot` | input_course_info.py:46-52 | one loop step keeps the open group, the recorded signatures and the appended packages equal to those of the slots read so far plus this one |
| `Catalog.Finish` | input_course_info.py:45 | the loop ends at the first empty line or at the end of input, with everything read accepted |
| `Catalog.FailureOutcome` | input_course_info.py:46 | the first line that fails ends the call with its exception; the groups appended before it stay |
| `Catalog.GroupClosed` | input_course_info.py:47-52 | a closing slot adds its group's signature to the recorded ones, and appends the group iff the signature is new |
| `Catalog.GroupOpen` | input_course_info.py:47 | a slot that does not complete the group appends nothing |
| `Catalog.AcceptedPackages` | input_course_info.py:35-53 | every appended package has the group size and holds well-formed slots of the course; packages come in input order, no two share a signature, and none appears twice |
| `Catalog.OnlyPartialGroupDropped` | input_course_info.py:45-52 | no parsed slot is lost except a trailing group shorter than `sections` |
| `Penalty.GetAllLecturePairs` | penalty_functions.py:47-54 | the loop lists exactly the pairs of `AllPairs` |
| `Penalty.PairsWith` | penalty_functions.py:52-53 | one row pairs a lecture with each later lecture, in order |
| `Penalty.AllPairsShape` | penalty_functions.py:47-54 | n(n-1)/2 pairs; pair (i, j), i < j, is at the place given by its row and column |
| `Penalty.PairIndexOrdered` | penalty_functions.py:51-53 | pairs are listed in lexicographic order of their positions |
| `Penalty.PairsFromMembers` | penalty_functions.py:51-53 | every listed pair is made of two lectures at positions i < j |
| `Penalty.PairsFromLength` | penalty_functions.py:51-53 | the number of pairs from a position is the number of pairs in its rows |
| `Penalty.RowStartClosedForm` | penalty_functions.py:51-53 | the rows before row i hold i(2n-i-1)/2 pairs |
| `Penalty.IsOverlapping` | penalty_functions.py:66-73 | no contract of its own: same day number and each starts before the other ends; `PairRelations` states its properties |
| `Penalty.IsB2B` | penalty_functions.py:88-92 | no contract of its own: same day number and one starts when the other ends; `PairRelations` states its properties |
| `Penalty.PairRelations` | penalty_functions.py:66-92 | overlap and back-to-back are symmetric, need the same day, and exclude each other |
| `Penalty.CountRelatedPairs` | penalty_functions.py:81-84 | the counting loop counts exactly the related pairs, at most the number of pairs |
| `Penalty.CountsArePositionPairs` | penalty_functions.py:76-104 | the overlap and back-to-back counts are the numbers of position pairs i < j whose lectures are related |
| `Penalty.CountPairsFrom` | penalty_functions.py:51-53 | the related pairs from a position correspond one-to-one with the related position pairs |
| `Penalty.GetOverlapPenalty` | penalty_functions.py:76-85 | `OVERLAP_PENALTY` times the number of overlapping pairs |
| `Penalty.GetB2BPenalty` | penalty_functions.py:95-104 | `B2B_PENALTY` times the number of back-to-back pairs |
| `Penalty.EarlyAmount` | penalty_functions.py:122-125 | the hours before 11, or 0: non-negative, at least `11 - start`, and one of the two |
| `Penalty.LateAmount` | penalty_functions.py:128-131 | the hours after 18, or 0: non-negative, at least `end - 18`, and one of the two |
| `Penalty.EarlyLateCost` | penalty_functions.py:139 | no lecture lowers the early/late penalty |
| `Penalty.GetEarlyLatePenalty` | penalty_functions.py:134-140 | the loop sums the per-lecture early/late cost, a non-negative total |
| `Penalty.DistanceFromFriday` | penalty_functions.py:107-109 | 0..4 days for a week day, 0 exactly on Friday |
| `Penalty.GetEarlyTutorialPenalty` | penalty_functions.py:112-119 | the loop sums the distance from Friday over tutorial slots only |
| `Penalty.IsTutorial` | penalty_functions.py:117 | no contract of its own: the course name ends in "TUT"; `EarlyTutorialBounds` counts these slots |
| `Penalty.EarlyTutorialBounds` | penalty_functions.py:112-119 | that sum is between 0 and 4 per tutorial |
| `Penalty.GetLecturesOnDay` | penalty_functions.py:57-63 | exactly the lectures on that day, no more of them than there are lectures |
| `Penalty.GetOneLecturePenalty` | penalty_functions.py:143-150 | `ONE_LECTURE_PENALTY` per week day with exactly one lecture, at most five of them |
| `Penalty.GetFridayPenalty` | penalty_functions.py:153-158 | `FRIDAY_PENALTY` iff some lecture is on Friday, else 0 |
| `Penalty.GetTotalPenalty` | penalty_functions.py:32-44 | the method computes the sum of the six rules |
| `Penalty.TotalPenaltyAtLeastOverlaps` | penalty_functions.py:32-44 | for well-formed slots the total is at least the overlap penalty, and never negative |
| `Penalty.RetainedHasAtMostOneOverlap` | penalty_functions.py:20-21 | a selection within `MAX_CONSIDERATION` has at most one overlapping pair, and with one its total is exactly 5000 |
| `Penalty.OneOverlapIsKept` | penalty_functions.py:20-44 | two overlapping Monday lectures and nothing else total exactly 5000, so they are kept |
| `Penalty.ThreeMondayLectures` | penalty_functions.py:32-104 | three Monday lectures where one overlaps both others: two overlapping pairs and one back-to-back pair, a total of 10104 |
| `Penalty.OnlyOneDay` | penalty_functions.py:57-63 | when all lectures are on one day, that day lists them all and any other day none |
| `Penalty.OneDaySchedule` | penalty_functions.py:143-150 | two or more lectures all on one day leave no day with a single lecture |
| `Penalty.CountPairsWithIsDegree` | penalty_functions.py:52-53 | the related pairs of one row are the number of later lectures related to its lecture |
| `Penalty.CountPairsFromIsFrontCount` | penalty_functions.py:51-53 | counting the listed pairs equals counting each lecture's related successors |
| `Penalty.FrontCountExtract` | penalty_functions.py:51-53 | taking one lecture out removes exactly its related pairs, for a symmetric relation |
| `Penalty.FrontCountPermutation` | penalty_functions.py:51-53 | for a symmetric relation the count of related pairs does not depend on the order |
| `Penalty.PairCountsPermutation` | penalty_functions.py:76-104 | the overlap and back-to-back counts depend only on which lectures there are |
| `Penalty.LecturesOnDayCount` | penalty_functions.py:57-63 | the lectures on a day number as many as the lectures counted one per match |
| `Penalty.SingleLectureDaysPermutation` | penalty_functions.py:143-150 | the single-lecture days depend only on which lectures there are |
| `Penalty.TotalPenaltyPermutation` | penalty_functions.py:32-44 | the total penalty does not depend on the order of the lectures |
| `Search.UnpackageAllCourses` | timetable_generator_v2.py:7-15 | the nested loop returns all slots of all packages, package by package, as many as the packages hold together |
| `Search.UnpackagedMember` | timetable_generator_v2.py:7-15 | a slot is in the result iff one chosen package holds it |
| `Search.Product` | timetable_generator_v2.py:35 | no contract of its own; `ProductLength`, `ProductEmpty`, `ProductMember`, `ProductOrder` and `ProductNoDuplicates` state what it holds and in which order |
| `Search.ProductLength` | timetable_generator_v2.py:35 | the product has as many choices as the product of the list lengths |
| `Search.ProductEmpty` | timetable_generator_v2.py:35 | the product is empty iff one of the lists is |
| `Search.ProductMember` | timetable_generator_v2.py:35 | the choices are exactly the sequences taking one element of each list at each position |
| `Search.ProductOrder` | timetable_generator_v2.py:35 | the first list varies slowest: choice i*M+j starts with element i of the first list |
| `Search.ProductNoDuplicates` | timetable_generator_v2.py:35 | lists without repeats give a product without repeats |
| `Search.RatedSelections.constructor` | timetable_generator_v2.py:33 | the list starts empty |
| `Search.AddSelectionResults` | timetable_generator_v2.py:18-29 | appends (total, lectures) when the total is at most `MAX_CONSIDERATION`, and otherwise leaves the list unchanged |
| `Search.RateAllMember` | timetable_generator_v2.py:18-29 | the entries are exactly the ratings of kept selections, each with the total of its own lectures, at most 5000 |
| `Search.RateAllSubsequence` | timetable_generator_v2.py:18-29 | the entries keep the order of the selections they rate |
| `Search.GenerateAllSelections` | timetable_generator_v2.py:32-40 | the loop leaves exactly the ratings of the first occurrence of each product choice, in product order, in a new list |
| `Search.GenerateStep` | timetable_generator_v2.py:36-39 | a repeated key is skipped, and a new one is rated and recorded |
| `Search.GeneratedEntries` | timetable_generator_v2.py:32-40 | an entry is returned iff it rates a kept product choice; no kept choice is missing |
| `Search.NoOptionsNoSelections` | timetable_generator_v2.py:35 | a course without options leaves nothing to rate |
| `Search.NoCoursesOneEmptySelection` | timetable_generator_v2.py:35 | with no courses the one empty choice is rated 0 and kept |
| `Search.CandidatesInProductOrder` | timetable_generator_v2.py:32-40 | no choice is rated twice, and choices and entries follow product order |
| `Search.DistinctOptionsNothingSkipped` | timetable_generator_v2.py:36-37 | when no course lists a package twice, no choice is skipped |
| `Search.SortByPenalty` | timetable_generator_v2.py:59 | no contract of its own: insertion of each entry after those of at least its penalty; `SortByPenaltyCorrect` states it is the stable descending sort |
| `Search.SortByPenaltyCorrect` | timetable_generator_v2.py:59 | the sort is greatest penalty first, a permutation, and stable within each penalty |
| `Search.InsertByPenaltySorted` | timetable_generator_v2.py:59 | inserting into a sorted list keeps it sorted |
| `Search.InsertByPenaltyStable` | timetable_generator_v2.py:59 | an inserted entry goes after the entries of equal penalty |
| `Search.ReportSlice` | timetable_generator_v2.py:60 | no contract of its own: Python's slice `[-max_output:]`, clamped, with -0 meaning the whole list; `ReportSliceBest` states what it keeps |
| `Search.ReportSliceBest` | timetable_generator_v2.py:60 | on a sorted list the slice is a suffix of min(max_output, len) entries for positive max_output, none worse than an unreported entry, and everything for 0 |
| `Search.OutputAllSelections` | timetable_generator_v2.py:54-64 | sorts the list in place, reports the slice `[-max_output:]`, and signals the notice iff fewer than `max_output` entries exist |
| `Search.ReportedAreLeastPenalties` | timetable_generator_v2.py:59-64 | for positive max_output, the reported entries and the unreported ones together are all entries, and no reported one has a greater penalty than an unreported one |
| `Sequences.DedupByKeys` | input_course_info.py:49-51 | dropping repeats loses no key |
| `Sequences.DedupBySnoc` | input_course_info.py:49-51 | an element is kept iff its key is new, and its key joins the recorded keys |
| `Sequences.DedupByDistinctKeys` | input_course_info.py:49-51 | no two kept elements share a key |
| `Sequences.DedupByIsSubsequence` | input_course_info.py:49-51 | the kept elements are in their original order |
| `Sequences.SumOverPermutation` | penalty_functions.py:137-140 | a per-lecture sum does not depend on the order of the lectures |
| `Sequences.ConcatMember` | timetable_generator_v2.py:7-15 | an element of the flattening is in one of the lists |

## Left out

- Console and file I/O is not modelled. This covers `read_line`, `process_all_input`, both `main` functions, `export_courses_to_file`, `get_course_info`, `output_selection` with its display sort, and `LectureSlot.output_info`. Pickle has no counterpart in the model, and the printed text is not modelled.
- The `__main__` blocks are not modelled.
- The prompts of `read_lecture_timeslots` are not modelled. Its `input()` calls become a given sequence of lines. Running out of lines raises EOFError, as `input()` does at end of input.
- `Search.OutputAllSelections`: the notice is returned as a boolean, and the reported selections as a sequence.
- `Search.GenerateAllSelections`: the Python code remembers `str(selection)`. That text prints each slot by object identity, so it is equal only for the very same slot objects. The model uses the selection's value as the key. The two agree whenever no course lists the same package twice, and then nothing is skipped. `DistinctOptionsNothingSkipped` proves this, and the catalog reader guarantees the condition (`AcceptedPackages`).
- `LectureSlot` has no equality of its own in Python, so list membership compares identities. The model compares slots by value.
- `Text.ParseInt`: `int()` is modelled for ASCII digits, an optional sign and surrounding whitespace. Underscores between digits and non-ASCII digits are not modelled.
- `Text.IsWhitespace` lists the characters `str.isspace()` accepts, fixed as of Unicode 15; the model does not follow later changes to that set.
- `EARLY_TUTORIAL_PENALTY` (5) is declared but never read: each tutorial adds its distance from Friday unscaled. The model follows the code.
- Three Monday lectures where one overlaps both others cost two overlap penalties, one per pair. The total is 10104, and the selection is dropped (`ThreeMondayLectures`). The code counts pairs, and the model follows it.
