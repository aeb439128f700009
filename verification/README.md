# A model of the CCT runtime kernel

The CCT compiler emits C with a runtime prelude: an insertion-ordered hash map and sets built on it, a growable
vector (`fluxus`), text and path functions, a shuffle, a CRC-32, a calendar library, regex drivers and a printer of
PostgreSQL full-text search expressions. Its command-line driver sorts the diagnostics of a document before printing
them. This project models those parts and proves what they promise, over every input and every run.

Where the C code works step by step, the model does too: the map is a class with an array of buckets, linked entries
and an insertion-order array; the loops over texts, paths, dates and buffers are methods with loops. Each such method
is proved against a specification (an ordered list of pairs, the pieces of a text, the day number of a date, ...),
and the theorems are about the specifications.

| file | contents |
|---|---|
| `Options.dfy`, `Sequences.dfy` | optional values and results, facts about sequences |
| `Fluxus.dfy` | the vector |
| `AssocList.dfy`, `HashMap.dfy`, `MapRuns.dfy` | ordered association lists, the map class, whole runs of the map |
| `HashSet.dfy` | sets as maps to a marker, set algebra |
| `Text.dfy`, `Csv.dfy` | search, split, join, replace, count; one line of comma-separated values |
| `Paths.dfy`, `RelativePaths.dfy`, `PathLoops.dfy` | normal forms and their meaning, joins and relative paths, the loops |
| `Shuffle.dfy` | the Fisher-Yates loop and its choice sequences |
| `Registers.dfy`, `Crc32.dfy` | linear shift registers in general, the table-driven CRC-32 |
| `Calendar.dfy`, `DateTimes.dfy`, `DateText.dfy` | day counts, month and second shifts, printing and parsing |
| `Regex.dfy` | find, split and replace over an arbitrary matcher |
| `SearchSql.dfy` | the SQL printer and a reader for its texts |
| `Sorting.dfy`, `Diagnostics.dfy` | what any correct sort does, the order of diagnostics |

## Conventions

- Texts are sequences of characters standing for the bytes of a NUL-terminated string; a null pointer that the code
  reads as the empty text is the empty text. Only the checksum model has the terminator in it. Integers are
  unbounded except in number parsing, where the 64-bit range is an error condition; C division is `TruncDiv`.
- The hash function of the map is an arbitrary function; a bucket is the hash modulo the capacity.
- Random numbers, the regex engine and the C library's sort are parameters. The engine is any function from a text to
  an optional span that ends within the text; the sort is any function that returns an ordered permutation when the
  comparator is a total order.
- Calls that end the process (a negative length, a null map) are preconditions or absent from the types; errors the
  code returns are values of a `Result`.

## Where the code does less than it seems to

Each of these has a lemma with the exact condition (a sufficient one for the search documents), and where it helps a
concrete input.

- `path_relative_to` does not lead back when the base is `.`, climbs through `..`, or starts with a backslash
  (`RelativePaths.RelativeRoundTrip`, `RelativePaths.DotBaseFails`).
- `date_add_months` does not compose across short months (`DateTimes.MonthShiftsCompose`).
- Dates before year 0 print with the sign inside the padding unless the year has three digits
  (`DateText.PrintThenParseDate`), and the `%z` directive prints an offset that the parser never accepts
  (`DateText.PrintedOffsetNeverParses`).
- Replacing all matches repeats text when an empty match lies past the scan position, as for an end anchor
  (`Regex.ReplaceIsSubstitution`, `Regex.EndAnchorRepeats`).
- Splitting and finding lose or repeat text around empty matches unless they lie one character past the scan
  (`Regex.EngineRebuilds`, `Regex.StartMatchesLoseText`).
- `date_parse` accepts a plus sign in any field and drops it when printing (`DateText.ParseThenPrintDate`,
  `DateText.PlusSignIsLost`).
- Search expressions are printed without quoting, so two fields can print like one
  (`SearchSql.SameSqlSameDocument`, `SearchSql.FusedPrintsAlike`).

The order of diagnostics does what the comment in the driver promises for every document the parser builds
(`Diagnostics.ParsedReportsIgnoreOrder`). The comparator takes a missing message for an empty one and the text printer
does not, so a document holding both would be the one exception (`Diagnostics.TextIgnoresOrder`); the parser never
records a missing one.

## Model

| member | source | states |
|---|---|---|
| `FluxusVector.Fluxus.Reserve` | lib/cct/args.cgen.c:321-330 | growing keeps the elements; the capacity becomes the request only when that is larger |
| `FluxusVector.Fluxus.Push` | lib/cct/args.cgen.c:332-348 | appends one element, doubling the buffer from 8 when it is full |
| `FluxusVector.Fluxus.Remove` | lib/cct/args.cgen.c:402-414 | removes the element at an index and closes the gap, the others keeping their order |
| `HashMaps.HashMap.constructor` | lib/cct/args.cgen.c:1004-1017 | an empty map with 16 buckets |
| `HashMaps.HashMap.Search` | lib/cct/args.cgen.c:1024-1033 | walking one bucket finds the entry of a key exactly when the list of pairs has the key |
| `HashMaps.HashMap.Get` | lib/cct/args.cgen.c:1044-1055 | the value the ordered list of pairs gives to the key, or none |
| `HashMaps.HashMap.Contains` | lib/cct/args.cgen.c:1057-1059 | true exactly when the list has the key |
| `HashMaps.Relink` | lib/cct/args.cgen.c:986-1002 | relinking every node keeps the set of entries, each once and in its new home bucket |
| `HashMaps.HashMap.Rehash` | lib/cct/args.cgen.c:986-1002 | the capacity changes and the list of pairs, so every lookup and the order, does not |
| `HashMaps.HashMap.ReserveOrder` | lib/cct/args.cgen.c:954-962 | growing the insertion-order array keeps its used cells |
| `HashMaps.HashMap.Insert` | lib/cct/args.cgen.c:1019-1042 | an update keeps its place, a new key goes last; the table doubles exactly when the new entry would reach three quarters |
| `HashMaps.HashMap.Remove` | lib/cct/args.cgen.c:1061-1081 | reports whether the key was there; its pair leaves both the bucket and the order array, the others keep their order |
| `HashMaps.Unlink` | lib/cct/args.cgen.c:1066-1075 | taking a node out of its chain keeps all other entries linked, each in its home bucket |
| `HashMaps.HashMap.CloseGap` | lib/cct/args.cgen.c:969-979 | shifting the order array down removes exactly one pair |
| `HashMaps.HashMap.Clear` | lib/cct/args.cgen.c:1097-1113 | an empty list of pairs in a table of the same capacity |
| `HashMaps.HashMap.Reserve` | lib/cct/args.cgen.c:1115-1125 | the list is unchanged and the capacity is the first doubling that leaves room for the additional keys |
| `HashMaps.HashMap.Copy` | lib/cct/args.cgen.c:1127-1138 | a disjoint map with the same list in the same order, in a table grown from 16 buckets |
| `HashMaps.HashMap.Merge` | lib/cct/args.cgen.c:1170-1182 | right-biased: the pairs of the source are put one by one, also when a map is merged with itself; the source is unchanged |
| `HashMaps.HashMap.Len` | lib/cct/args.cgen.c:1083-1086 | the length of the list |
| `HashMaps.MapIter.Next` | lib/cct/args.cgen.c:1197-1210 | yields the pairs in insertion order and then nothing |
| `HashMaps.KeysOf` | lib/cct/args.cgen.c:1140-1153 | the keys in insertion order |
| `HashMaps.ValuesOf` | lib/cct/args.cgen.c:1155-1168 | the values in insertion order |
| `HashMaps.ReservedIsEnough` | lib/cct/args.cgen.c:1115-1125 | the reserve loop reaches enough room and stops at the first capacity that has it |
| `HashMaps.DoubledFor` | lib/cct/args.cgen.c:1115-1125 | the reserve loop terminates with that capacity |
| `MapRuns.ReachedIsSound` | lib/cct/args.cgen.c:899-1182 | after any run of insert, remove, clear, reserve, merge and copy the keys are distinct and 4 * len < 3 * capacity |
| `MapRuns.LookupIsLastWrite` | lib/cct/args.cgen.c:1019-1182 | after any run a lookup gives what the run last wrote for the key |
| `MapRuns.BornIffPresent` | lib/cct/args.cgen.c:1019-1182 | a key has a present life exactly when its last write was an insertion |
| `MapRuns.OrderIsBirthOrder` | lib/cct/args.cgen.c:954-1182 | after any run, iteration order is the order in which the present lives of the keys began: updates keep the place, a re-insertion goes last, a merge appends its new keys in the order of the source |
| `MapRuns.CapacityIsPeak` | lib/cct/args.cgen.c:1004-1182 | after any run the capacity is the least doubling of 16 with room for the greatest demand made since the table was made or copied |
| `MapRuns.ReserveThenInsert` | lib/cct/args.cgen.c:1019-1125 | with room reserved for k keys, the next k insertions never change the capacity, and give the merge |
| `MapRuns.MergeIsReserveThenInsert` | lib/cct/args.cgen.c:1170-1182 | a merge does what reserving and inserting the pairs one by one would do |
| `MapRuns.ReplayHashed` | lib/cct/args.cgen.c:981-984 | for any hash function, after every run each entry is in the chain of bucket hash % capacity |
| `MapRuns.Replay` | lib/cct/args.cgen.c:899-1182 | the class goes through the same list and capacity as the model over every run |
| `AssocLists.LookupPut` | lib/cct/args.cgen.c:1019-1042 | what putting a pair does to every lookup |
| `AssocLists.LookupDelete` | lib/cct/args.cgen.c:1061-1081 | what deleting a key does to every lookup |
| `AssocLists.ReinsertGoesLast` | lib/cct/args.cgen.c:1019-1081 | deleting a key and putting it again moves it to the end |
| `AssocLists.Extensional` | lib/cct/args.cgen.c:1189-1210 | two lists with the same key order and the same lookups are equal |
| `AssocLists.MergeKeys` | lib/cct/args.cgen.c:1170-1182 | the keys of a merge: those of the left, then the fresh ones of the right in their order |
| `AssocLists.MergeLookup` | lib/cct/args.cgen.c:1170-1182 | the value of a merge is that of the right where the right has the key |
| `AssocLists.MergeAssociative` | lib/cct/args.cgen.c:1170-1182 | merging is associative, order included |
| `AssocLists.MergeUnits` | lib/cct/args.cgen.c:1127-1138 | merging with the empty list on either side gives the other list; this is why the copy loop copies |
| `HashSets.HashSet.Insert` | lib/cct/args.cgen.c:1232-1240 | reports whether the element was new; a new one goes last |
| `HashSets.HashSet.Remove` | lib/cct/args.cgen.c:1242-1246 | reports whether the element was there and removes just that one |
| `HashSets.HashSet.Contains` | lib/cct/args.cgen.c:1248-1252 | membership in the list of elements |
| `HashSets.HashSet.Copy` | lib/cct/args.cgen.c:1319-1331 | a disjoint set with the same elements in the same order |
| `HashSets.IsSubset` | lib/cct/args.cgen.c:1347-1360 | true exactly when every element of the left is in the right; the early exit on lengths is the pigeonhole principle |
| `HashSets.Equals` | lib/cct/args.cgen.c:1362-1370 | a length test and a one-way scan decide equality of the sets |
| `HashSets.Union` | lib/cct/args.cgen.c:1372-1386 | the left elements, then the right ones not in the left; as a set, the union |
| `HashSets.Intersection` | lib/cct/args.cgen.c:1388-1404 | in the order of the smaller operand, the left one on a tie; as a set, the intersection |
| `HashSets.Difference` | lib/cct/args.cgen.c:1406-1420 | in the order of the left; as a set, the difference |
| `HashSets.SymmetricDifference` | lib/cct/args.cgen.c:1422-1441 | left-only elements, then right-only ones; as a set, the symmetric difference |
| `HashSets.UnionElems` | lib/cct/args.cgen.c:1372-1386 | list-level form of the union |
| `HashSets.SymmetricElems` | lib/cct/args.cgen.c:1422-1441 | list-level form of the symmetric difference: no insertion of the second loop is dropped |
| `HashSets.DistinctSize` | lib/cct/args.cgen.c:1254-1257 | a set of elements is as large as its list is long |
| `HashSets.SubsetSize` | lib/cct/args.cgen.c:1347-1370 | inclusion bounds the size, and at equal size inclusion is equality |
| `PathLoops.PathNormalize` | lib/cct/args.cgen.c:3299-3357 | the scanning loop with its segment stack computes the normal form |
| `PathLoops.PushPart` | lib/cct/args.cgen.c:3313-3332 | one segment: dropped, popped against the top, swallowed at the root, or pushed |
| `PathLoops.PathSplit` | lib/cct/args.cgen.c:3400-3427 | the index loop lists the root and the parts of the normal form |
| `PathLoops.JoinPaths` | lib/cct/args.cgen.c:3169-3235 | the trimming and copying loops compute the join |
| `PathLoops.DupNormalized` | lib/cct/args.cgen.c:3151-3167 | the copied stretch with every backslash turned into a slash |
| `PathLoops.PathRelativeTo` | lib/cct/args.cgen.c:3454-3496 | the common-prefix and push loops compute the relative path; mixing absolute and relative paths is the error |
| `Paths.NormalizeIsCanonical` | lib/cct/args.cgen.c:3299-3357 | the result is canonical, reads back as its own parts and is a fixed point |
| `Paths.NormalizeKeepsMeaning` | lib/cct/args.cgen.c:3299-3357 | from every directory, the original segments and the normalised ones lead to the same place |
| `Paths.NormalFormDecidesMeaning` | lib/cct/args.cgen.c:3299-3357 | two paths have the same normal form if and only if they lead to the same place from every directory |
| `Paths.CanonicalIsFixed` | lib/cct/args.cgen.c:3307-3333 | pushing a canonical stack part by part rebuilds it |
| `Paths.WalkCanonical` | lib/cct/args.cgen.c:3318-3331 | from any directory a canonical path climbs as often as it has `..`, staying at the root, then descends through its names |
| `Paths.NormalText` | lib/cct/args.cgen.c:3340-3356 | a normal form is not empty, has no backslash, no two slashes in a row and no trailing slash but the root; it starts with a slash exactly when the path does |
| `Paths.NormalIsShortest` | lib/cct/args.cgen.c:3299-3357 | of all non-empty paths that lead to the same place from every directory, the normal form is the shortest |
| `PathLoops.JoinListed` | lib/cct/args.cgen.c:3400-3427 | joining the listed parts one after the other gives the normal form |
| `RelativePaths.JoinConcatenates` | lib/cct/args.cgen.c:3169-3235 | the segments of a join are those of the two parts; a first part starting with either separator makes it absolute |
| `RelativePaths.JoinText` | lib/cct/args.cgen.c:3169-3235 | a join has exactly one slash between the two parts, whatever separators stood there |
| `RelativePaths.AbsoluteRoundTrip` | lib/cct/args.cgen.c:3454-3496 | for absolute paths, joining the base with the relative path normalises to the path |
| `RelativePaths.RelativeRoundTrip` | lib/cct/args.cgen.c:3454-3496 | for relative paths this holds if and only if the base does not start with a backslash and its parts past the common prefix contain neither `.` nor `..` |
| `RelativePaths.DotBaseFails` | lib/cct/args.cgen.c:3454-3496 | the failing input `a` relative to `.`: the result `../a` does not lead back |
| `RelativePaths.RelativeText` | lib/cct/args.cgen.c:3454-3496 | a relative path is a tidy text that starts with a part |
| `RelativePaths.RelativeLeads` | lib/cct/args.cgen.c:3454-3496 | from the directory of an absolute base, the relative path leads to the absolute path |
| `RelativePaths.RelativeIsShortest` | lib/cct/args.cgen.c:3454-3496 | no relative path that leads there is shorter |
| `Shuffles.ShuffleInt` | lib/cct/args.cgen.c:3566-3575 | the in-place loop applies the choices made by the random numbers to the first n cells and leaves the rest alone |
| `Shuffles.ShuffleKeeps` | lib/cct/args.cgen.c:3566-3575 | every choice sequence keeps the multiset |
| `Shuffles.LastIsChosen` | lib/cct/args.cgen.c:3566-3575 | the element that ends last is the one first chosen |
| `Shuffles.ChoicesAreDetermined` | lib/cct/args.cgen.c:3566-3575 | on distinct elements, equal results come from equal choices |
| `Shuffles.Unshuffle` | lib/cct/args.cgen.c:3566-3575 | every permutation, with repeated elements too, is reached by some choice sequence |
| `Shuffles.ShuffleIsBijective` | lib/cct/args.cgen.c:3566-3575 | every permutation of distinct elements comes from exactly one choice sequence |
| `Shuffles.ChoicesAreReached` | lib/cct/args.cgen.c:3566-3575 | every choice sequence is made by some random numbers, none of them larger than the array |
| `Shuffles.EveryPermutationIsReached` | lib/cct/args.cgen.c:3566-3575 | every permutation is the result of a run for some random numbers |
| `Shuffles.SameChoices` | lib/cct/args.cgen.c:3570-3570 | two runs make the same choices if and only if their numbers agree modulo n, n - 1, ... in the order they are drawn |
| `Shuffles.ShufflePermutesPositions` | lib/cct/args.cgen.c:3566-3575 | which positions move where depends on the choices alone |
| `Texts.Find` | lib/cct/date.cgen.c:2035-2043 | the first occurrence at or after an offset, as `strstr` finds it |
| `Texts.Split` | lib/cct/date.cgen.c:2021-2050 | the loop lists the pieces; an empty separator gives single characters |
| `Texts.Join` | lib/cct/date.cgen.c:2060-2096 | the counting pass and the copying pass agree exactly and give the joined text |
| `Texts.ReplaceAll` | lib/cct/date.cgen.c:1754-1789 | the buffer sized by the counting pass is filled exactly by the copying pass |
| `Texts.CountOccurrences` | lib/cct/date.cgen.c:1962-1974 | the greedy left-to-right count |
| `Texts.JoinSplit` | lib/cct/date.cgen.c:2021-2096 | join(split(s, sep), sep) == s for every text and every separator |
| `Texts.SplitJoin` | lib/cct/date.cgen.c:2021-2096 | for a one-character separator, split(join(ps)) == ps if and only if ps is not empty and no piece contains it |
| `Texts.PiecesFreeOf` | lib/cct/date.cgen.c:2021-2050 | the pieces are such a list, so the two are inverse to each other |
| `Texts.ReplaceIsSplitJoin` | lib/cct/date.cgen.c:1754-2096 | for a non-empty `from`, replacing is splitting on `from` and joining with `to` |
| `Texts.ReplacedLength` | lib/cct/date.cgen.c:1754-1789 | the length formula of the counting pass |
| `Texts.PiecesCount` | lib/cct/date.cgen.c:1962-2050 | one piece more than occurrences counted, and no piece contains the separator anywhere |
| `Texts.CountIsMaximumPacking` | lib/cct/date.cgen.c:1962-1974 | the count is the largest size of a set of pairwise non-overlapping occurrences, and one less than the number of pieces |
| `Texts.EmptyNeedles` | lib/cct/date.cgen.c:1754-2050 | an empty separator splits into single characters, nothing is counted and nothing replaced |
| `Texts.JoinedLength` | lib/cct/date.cgen.c:2060-2096 | a join is as long as its parts and one separator between any two of them |
| `CsvLines.ParseCsvLine` | lib/cct/date.cgen.c:2709-2742 | the parsing loop computes the fields of the line, or the error at the first bad quote |
| `CsvLines.ParseInvertsWriter` | lib/cct/date.cgen.c:2709-2742 | parsing a written line gives the fields back if and only if every quoted field is free of quotes and every bare one has no separator and no leading quote |
| `CsvLines.LineIsRead` | lib/cct/date.cgen.c:2709-2742 | a line is accepted if and only if some writer could have written it; it has an unclosed quote, or an invalid format, if and only if readable fields are followed by a quote that nothing closes, or by a quoted field that something other than the separator follows |
| `Crc32.CrcTable.EightSteps` | lib/cct/date.cgen.c:3643-3647 | the inner loop shifts the register eight times |
| `Crc32.CrcTable.Init` | lib/cct/date.cgen.c:3640-3651 | every cell holds its index after eight bit steps; filling happens once |
| `Crc32.CrcTable.Hash` | lib/cct/date.cgen.c:3653-3662 | for every text, the table-driven checksum is the bit-at-a-time CRC of section 8 of RFC 1952 |
| `Crc32.StepIsLinear` | lib/cct/date.cgen.c:3644-3647 | one bit step is linear over exclusive or |
| `Crc32.LookupIsFeed` | lib/cct/date.cgen.c:3658-3659 | one table lookup does what feeding eight bits does |
| `Crc32.BurstsAreDetected` | lib/cct/date.cgen.c:3653-3662 | texts of one length that differ only within four consecutive bytes have equal checksums only if they are equal |
| `Crc32.ChecksumOfChecksummed` | lib/cct/date.cgen.c:3640-3662 | any text followed by its own checksum, low byte first, has the checksum 0x2144DF1C |
| `Crc32.CheckValue` | lib/cct/date.cgen.c:3640-3662 | the digits 1 to 9 have the checksum 0xCBF43926 and the empty text has 0 |
| `Registers.FeedIsStepping` | lib/cct/date.cgen.c:3640-3662 | for any linear register, feeding bits one by one is adding them first and stepping |
| `Registers.WindowIsVisible` | lib/cct/date.cgen.c:3653-3662 | for any reversible register, a changed window as wide as the register changes the result |
| `Calendar.DaysSinceEpoch` | lib/cct/date.cgen.c:5557-5618 | the year and month loops give the closed form 365(y-1970) + L(y-1) - L(1969) + day of the year - 1 |
| `Calendar.DateFromEpochDays` | lib/cct/date.cgen.c:5494-5555 | for every integer the loops end, before month 13, in a valid date with that day number |
| `Calendar.LeapRule` | lib/cct/date.cgen.c:6148-6172 | divisibility by truncating division decides leap years as the Gregorian rule does, negative years included |
| `Calendar.YearLength` | lib/cct/date.cgen.c:6139-6146 | a year is as long as the gap between its start and the next in the closed form |
| `Calendar.MonthLength` | lib/cct/date.cgen.c:6118-6137 | month lengths add up to the year; month 13 would be empty |
| `Calendar.CompareIsSignOfDiff` | lib/cct/date.cgen.c:5402-5434 | comparing field by field is the sign of the difference in days, and zero only for equal dates |
| `Calendar.DateOfIsInverse` | lib/cct/date.cgen.c:5494-5618 | the valid date with a given day number is unique: the two loops are mutually inverse |
| `Calendar.DateOfExists` | lib/cct/date.cgen.c:5494-5555 | every integer is the day number of a valid date |
| `Calendar.EpochIsDayZero` | lib/cct/date.cgen.c:5494-5618 | day 0 is 1970-01-01 |
| `Calendar.NextDateIsNextDay` | lib/cct/date.cgen.c:5557-5618 | the next date of the calendar has the next day number |
| `Calendar.DateOfNextDay` | lib/cct/date.cgen.c:5494-5555 | the date of the next day number is the next date |
| `Calendar.MonthRule` | lib/cct/date.cgen.c:6118-6172 | months have 31 and 30 days in the alternation that starts anew in August, February 28 or, by the Gregorian rule, 29 |
| `DateTimes.DateAddDays` | lib/cct/date.cgen.c:5481-5492 | the valid date that many days later |
| `DateTimes.DateAddMonths` | lib/cct/date.cgen.c:5436-5479 | the two month loops compute the shifted month index with the day clamped |
| `DateTimes.MonthShiftMeaning` | lib/cct/date.cgen.c:5436-5479 | the month index moves by exactly the argument, the date stays valid, the day is kept or is the last of a shorter month |
| `DateTimes.MonthShiftsCompose` | lib/cct/date.cgen.c:5436-5479 | two shifts compose if and only if the day fits the month in between or that month is no shorter than the last one |
| `DateTimes.EarlyDaysCompose` | lib/cct/date.cgen.c:5436-5479 | for days up to 28 shifts compose additively and undo each other |
| `DateTimes.LateDaysDoNotCompose` | lib/cct/date.cgen.c:5436-5479 | the failing input January 31 |
| `DateTimes.DatetimeToUnix` | lib/cct/date.cgen.c:5373-5400 | day number times 86400 plus the time of day less the offset |
| `DateTimes.DatetimeFromUnix` | lib/cct/date.cgen.c:5325-5371 | truncating division corrected for negative times gives floor division; the result is the UTC date and time |
| `DateTimes.UnixTimeMeaning` | lib/cct/date.cgen.c:5325-5371 | every number of seconds gives a valid date and time whose unix time it is |
| `DateTimes.ToUnixIsInjective` | lib/cct/date.cgen.c:5373-5400 | at one offset an instant has one valid date and time |
| `DateTimes.UnixRoundTrip` | lib/cct/date.cgen.c:5325-5400 | from_unix undoes to_unix if and only if the offset is 0 |
| `DateTimes.EpochIsUnixZero` | lib/cct/date.cgen.c:5325-5371 | second 0 is midnight of 1970-01-01 |
| `DateTimes.NextSecondIsNextUnix` | lib/cct/date.cgen.c:5304-5400 | unix time counts the seconds of the clock, rolling over minute, hour and date; adding one second is the next of them |
| `DateTimes.LocalClock` | lib/cct/date.cgen.c:5373-5400 | the local clock is the UTC clock moved forward by the offset |
| `DateTimes.CompareIsByFields` | lib/cct/date.cgen.c:5278-5297 | at one offset, comparing instants is comparing the fields from the year down |
| `DateTimes.DatetimeAddSeconds` | lib/cct/date.cgen.c:5304-5323 | the method computes the shift by seconds |
| `DateTimes.SecondShiftMeaning` | lib/cct/date.cgen.c:5304-5323 | the shift stays valid, keeps the offset and moves the unix time by exactly the argument |
| `DateTimes.SecondShiftIsAnAction` | lib/cct/date.cgen.c:5304-5323 | shifting by 0 is the identity and shifts compose additively |
| `DateTimes.DiffThenShift` | lib/cct/date.cgen.c:5278-5323 | shifting by the difference reaches the same instant, and the same value if and only if the offsets agree |
| `DateTimes.SecondsMoveDays` | lib/cct/date.cgen.c:5304-5323 | shifts by whole days move the date by those days and keep the clock |
| `DateText.DateNew` | lib/cct/date.cgen.c:6002-6041 | accepts exactly the valid dates |
| `DateText.DatetimeNew` | lib/cct/date.cgen.c:5941-6000 | accepts exactly the valid dates and times |
| `DateText.DateFormatIsExpand` | lib/cct/date.cgen.c:5685-5716 | for every format text, the successive replacements equal one simultaneous expansion: no pass creates a directive |
| `DateText.DatetimeFormatIsExpand` | lib/cct/date.cgen.c:5620-5683 | the same for dates with times |
| `DateText.PadReadsBack` | lib/cct/date.cgen.c:6087-6116 | a padded number reads back when it fits its width |
| `DateText.PrintThenParseDate` | lib/cct/date.cgen.c:5685-5939 | parsing what `%Y-%m-%d` printed gives the date back exactly for the years 0 to 9999 and -999 to -100, and is the stated error otherwise |
| `DateText.PrintThenParseUtc` | lib/cct/date.cgen.c:5620-5882 | printing and parsing with a trailing Z is the identity if and only if the year reads back and the offset is 0 (section 5.6 of RFC 3339) |
| `DateText.ParseOffsetLine` | lib/cct/date.cgen.c:5718-5882 | a date and time followed by its signed offset with a colon parses back, offset included, exactly for the years that read back, and is the stated error otherwise |
| `DateText.ParseThenPrintDate` | lib/cct/date.cgen.c:5685-5939 | printing an accepted date gives back the accepted text if and only if no field starts with a plus sign and the year has no zero after a minus sign |
| `DateText.PlusSignIsLost` | lib/cct/date.cgen.c:5884-5939 | the failing input `+999-01-01` |
| `DateText.PrintedOffsetNeverParses` | lib/cct/date.cgen.c:5620-5882 | the layout with `%z` is never accepted by the parser |
| `DateText.OffsetFormatReads` | lib/cct/date.cgen.c:6043-6085 | sign, hours and minutes of a printed offset give the offset back |
| `DateText.DatetimeFields` | lib/cct/date.cgen.c:5718-5882 | every field of an accepted text is the number written in its place, the zone included |
| `DateText.DatetimeParseErrors` | lib/cct/date.cgen.c:5718-5882 | shape, date, clock and zone are examined in this order and the first fault names the error |
| `DateText.DateParseErrors` | lib/cct/date.cgen.c:5884-5939 | which texts have the wrong shape and which have parts that are no numbers |
| `DateText.DateErrors` | lib/cct/date.cgen.c:6002-6041 | which numbers give which error of a date |
| `DateText.DatetimeErrors` | lib/cct/date.cgen.c:5941-6000 | which numbers give which error of a date with time |
| `DateText.UtcExample` | lib/cct/date.cgen.c:5620-5683 | a leap day with a time of day, printed |
| `DateText.ColonOffsetExample` | lib/cct/date.cgen.c:5718-5882 | the same with an offset, parsed |
| `Regex.Hits` | lib/cct/db_postgres_search.cgen.c:4684-4698 | the matches the scan meets, in bounds, at most one more than there are characters |
| `Regex.FindAll` | lib/cct/db_postgres_search.cgen.c:4678-4700 | the loop ends for every engine and lists the matches |
| `Regex.Split` | lib/cct/db_postgres_search.cgen.c:4745-4771 | the loop ends for every engine and lists the pieces |
| `Regex.Replace` | lib/cct/db_postgres_search.cgen.c:4702-4743 | the loop ends for every engine, never writes past its growing buffer and computes the replacement |
| `Regex.HitsAreTheScan` | lib/cct/db_postgres_search.cgen.c:4684-4698 | each hit is what the engine reports for the suffix, each is looked for where the one before sends the scan, and the scan ends only on no report, a malformed one or an empty match at the end |
| `Regex.ScanIsTheHits` | lib/cct/db_postgres_search.cgen.c:4684-4698 | the hits are the only such list |
| `Regex.LiteralIsTextKernel` | lib/cct/db_postgres_search.cgen.c:4678-4771 | for a literal pattern, the pieces, the number of matches and the replacement are those of the text kernel |
| `Regex.Grow` | lib/cct/db_postgres_search.cgen.c:4719-4719 | doubling makes room without losing what was written |
| `Regex.FoundAndSplitAtHits` | lib/cct/db_postgres_search.cgen.c:4678-4771 | finding and splitting cut the text at the same matches |
| `Regex.SplitFindRebuild` | lib/cct/db_postgres_search.cgen.c:4678-4771 | for one text: interleaving pieces and matches rebuilds it when every empty match before the end lies one character past the scan, in particular when there is none |
| `Regex.EngineRebuilds` | lib/cct/db_postgres_search.cgen.c:4678-4771 | an engine rebuilds every text by its pieces and matches if and only if none of its empty matches before the end of a text lies elsewhere than one character on |
| `Regex.StartMatchesLoseText` | lib/cct/db_postgres_search.cgen.c:4678-4771 | the failing engine: empty matches at the start of the text lose every character |
| `Regex.RebuiltLength` | lib/cct/db_postgres_search.cgen.c:4678-4771 | for every engine, how far the length of the interleaving drifts from that of the text |
| `Regex.NonEmptyEngineAgrees` | lib/cct/db_postgres_search.cgen.c:4678-4771 | for an engine that never matches the empty text: pieces and matches rebuild the text, and replacing is joining the pieces |
| `Regex.ReplaceIsJoin` | lib/cct/db_postgres_search.cgen.c:4702-4771 | replacing all is joining the split pieces with the replacement if and only if no empty match is met before the end |
| `Regex.ReplaceIsSubstitution` | lib/cct/db_postgres_search.cgen.c:4702-4743 | replacing all is substituting all matches at once if and only if every empty match before the end lies where the scan stands |
| `Regex.ReplaceFirst` | lib/cct/db_postgres_search.cgen.c:4702-4743 | replacing one substitutes the first match only |
| `Regex.EndAnchorRepeats` | lib/cct/db_postgres_search.cgen.c:4702-4743 | the failing input: an end anchor on `ab` repeats text |
| `SearchSql.Quote` | lib/cct/db_postgres_search.cgen.c:6864-6879 | the text between quotes with every quote doubled |
| `SearchSql.QuotedReadsBack` | lib/cct/db_postgres_search.cgen.c:6864-6879 | reading a literal followed by a text gives both back if and only if that text does not start with a quote (section 5.3 of ISO/IEC 9075-2) |
| `SearchSql.QuerySql` | lib/cct/db_postgres_search.cgen.c:6394-6468 | the step-by-step builder prints the query |
| `SearchSql.QueryReadsBack` | lib/cct/db_postgres_search.cgen.c:6394-6468 | a reader recovers mode, configuration name and input |
| `SearchSql.SameSqlSameQuery` | lib/cct/db_postgres_search.cgen.c:6394-6468 | two queries print alike if and only if effective mode, configuration name and input agree |
| `SearchSql.FieldSql` | lib/cct/db_postgres_search.cgen.c:6575-6654 | the builder prints one field, weighted or not |
| `SearchSql.DocumentSql` | lib/cct/db_postgres_search.cgen.c:6527-6573 | the loop prints the fields joined by the concatenation operator |
| `SearchSql.DocumentReadsBack` | lib/cct/db_postgres_search.cgen.c:6527-6654 | a reader recovers the fields in order if and only if no expression closes early, that is, contains its closing text before its end |
| `SearchSql.SameSqlSameDocument` | lib/cct/db_postgres_search.cgen.c:6527-6654 | documents where no expression closes early and goes on like a field of its kind print alike if and only if they have the same fields under the same configuration name |
| `SearchSql.FusedPrintsAlike` | lib/cct/db_postgres_search.cgen.c:6527-6654 | without that condition the property fails: any two fields, both weighted or both not, print like one field |
| `SearchSql.CoalesceIsUnambiguous` | lib/cct/db_postgres_search.cgen.c:6575-6654 | an ordinary expression that holds the closing text meets the condition, though the reader does not recover it |
| `SearchSql.ValidName` | lib/cct/db_postgres_search.cgen.c:6831-6862 | accepts exactly the non-empty texts of letters, digits and underscores |
| `SearchSql.NamedConfig` | lib/cct/db_postgres_search.cgen.c:6751-6807 | accepted configuration names print unchanged between quotes |
| `SearchSql.NameChars` | lib/cct/db_postgres_search.cgen.c:6831-6862 | the accepted characters, listed |
| `SearchSql.PlainQueryPrints` | lib/cct/db_postgres_search.cgen.c:6394-6468 | the text of a query whose name and input have no quotes, for each mode |
| `SearchSql.DocumentExample` | lib/cct/db_postgres_search.cgen.c:6527-6654 | the text of a document with a weighted and a plain field |
| `SearchSql.QuotedExample` | lib/cct/db_postgres_search.cgen.c:6864-6879 | an apostrophe in a literal |
| `Diagnostics.CompareIsTotal` | src/main.c:310-338 | the comparator is a strict total order on distinct indices |
| `Diagnostics.AnySortAgrees` | src/main.c:341-349 | any correct sort gives one and the same array of indices |
| `Diagnostics.Driver.SortedDiagIndices` | src/main.c:341-349 | for every correct sort the method returns that array, null when there is nothing to sort, and clears the global again |
| `Diagnostics.ErrorsFirst` | src/main.c:320-322 | no warning is printed before an error |
| `Diagnostics.PrintedInOrder` | src/main.c:310-338 | within a level kinds ascend, then lines, columns and messages by the first differing character; equal ones keep their input order |
| `Diagnostics.InOrderPermutes` | src/main.c:341-349 | every diagnostic is printed as often as it occurs |
| `Diagnostics.KeysDependOnContents` | src/main.c:310-349 | two documents print the same sequence of level, kind, line, column and message if and only if they contain the same ones |
| `Diagnostics.StructuredIgnoresOrder` | src/main.c:504-539 | the structured report does not depend on the input order |
| `Diagnostics.TextIgnoresOrder` | src/main.c:364-388 | the text report ignores the input order if and only if no two diagnostics differ only in one having no message and the other an empty one |
| `Diagnostics.WithMessagesTextIgnoresOrder` | src/main.c:364-388 | where every diagnostic has a message the text report does not depend on the input order |
| `Diagnostics.ParsedReportsIgnoreOrder` | src/sigilo/sigil_parse.c:39-62 | recording refuses a null message, so both reports of a parsed document depend only on which diagnostics were recorded |
| `Diagnostics.InputOrderShows` | src/main.c:364-388 | the smallest document whose text report depends on the input order, a missing and an empty message at the same place; the parser never records it |
| `Diagnostics.Driver.PrintDiagnostics` | src/main.c:364-388 | the loop hands the diagnostics to the emitter in the sorted order |
| `Diagnostics.Driver.PrintBlocks` | src/main.c:524-537 | the loop writes the structured blocks in the sorted order |
| `Diagnostics.BlockTells` | src/main.c:524-537 | what a structured block says of its diagnostic |
| `Diagnostics.KindNamesDiffer` | src/sigilo/sigil_parse.c:274-287 | different kinds have different names |
| `Diagnostics.EmittedMessage` | src/main.c:364-388 | an emitted message fits its buffer, and one that fits is whole |
| `Diagnostics.EmittedExamples` | src/main.c:364-388 | a diagnostic with a message, and one without message and file |
| `Sorting.OrderedUnique` | src/main.c:341-349 | two sorts of the same elements under a total order are equal |
| `Sorting.SortIsInsertionSorted` | src/main.c:341-349 | a sort exists, and every sort is the one an insertion sort gives |

## Left out

- `malloc`, `realloc` and `free`: allocation succeeds and nothing is ever released.
- 64-bit overflow of lengths, capacities, days and seconds; the model's integers are unbounded.
- RelativePaths.RelativeIsShortest: is about absolute paths; of relative paths it states no length.
- Shuffles.ShuffleInt: does not model the truncation of `i + 1` to `int` before the remainder, and states nothing
  about the distribution of `rand`, which is the caller's.
- HashSets.HashSet.Copy: reuses the map's copying loop instead of a second loop over the elements; capacities of sets
  are not stated.
- FluxusVector.Fluxus.Remove: moves the tail in one parallel assignment, as `memmove` does; `pop`, `set`, `insert`,
  `reverse` and the sorts of the vector are not modelled.
- Texts.Find: stands for the C library's `strstr`, `strchr` and `memcmp`; likewise the copying of stretches stands
  for `memcpy`.
- `Crc32.BurstsAreDetected`: is about all byte strings; the C function sees only the bytes before the first NUL.
- DateText.DateNew, DateText.DatetimeNew and the parsers return an error value instead of a boxed result with its
  message text.
- Regex.Hits: the engine sees only the suffix, as the code calls it without flags; which matches a pattern has is not
  modelled, nor are compilation, `regex_match` and `regex_search`.
- SearchSql.SameSqlSameDocument: its condition is sufficient for every pair of documents; it does not say for which
  ambiguous document another one with the same text exists.
- SearchSql.DocumentSql: the constructor that refuses an empty document or an empty expression is not modelled; the
  rank, headline, match and index printers only wrap these texts.
- Diagnostics.Driver.PrintDiagnostics: ends at the record handed to the emitter; colours, snippets and the summary
  lines are not modelled.
- Iterating a map while changing it, beyond what one step reads.
- Files, sockets, processes, the clock, the environment, the terminal, floating-point formatting and the JSON,
  logging and HTTP parts of the prelude: foreign calls or plain field access.
- Trimming, case mapping, padding of general texts, base names and extensions of paths, option and result boxes, byte
  buffers and scan cursors: they would only add easy members.
- Murmur3 and FNV hashing: there is nothing to prove them against.
