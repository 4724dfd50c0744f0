# Gift allocation: a verified model

The repository is a browser tool for the game Blue Archive. The player picks some students,
and the tool says which favour gifts (café gifts) to give to whom. Each gift has tags; each
student has preferred tags and unique preferred tags. The number of matching tags decides the
affection multiplier, from 1 to 4. `GiftAnalyzer.analyzeGifts` (js/analyzer.js) scores every
gift against every selected student and sorts the gifts into four sections:

- **optimal**: gifts one student likes strictly more than everyone else, listed under that student;
- **freeChoice**: gifts whose best multiplier above 1 is shared by several students;
- **tailor**: SR gifts nobody likes;
- **unchi**: SSR gifts nobody likes, except a fixed blacklist of bouquets and a photo card.

`DataManager` (js/data.js) builds the URLs of the game-data site from XOR-obfuscated constants.
It filters and reshapes the downloaded student and item tables, and it serves the loaded data.

The model has these modules:

| file | module | what it holds |
|---|---|---|
| records.dfy | `Records` | the shaped `Student` and `Gift` records, `Option`, Ids |
| objectkeys.dfy | `ObjectKeys` | the order in which `Object.entries`/`Object.values` visit an object with array-index keys (below 2^32 - 1): ascending |
| sorting.dfy | `Sorting` | a stable insertion sort standing in for `Array.prototype.sort`, with its permutation and sortedness lemmas |
| scoring.dfy | `Scoring` | `calculateMultiplier` |
| analysis.dfy | `Analysis` | the per-gift record `analyzeGifts` builds (multiplier map, maximum, competition count) |
| sections.dfy | `Sections` | the four `generate*Section` functions, `getRarityOrder`, the blacklist |
| analyzer.dfy | `Analyzer` | `analyzeGifts`, and theorems saying what each section means for the students |
| codec.dfy | `Codec` | the `_0xa1` decoder, the decoded constants, and the URL builders |
| catalog.dfy | `Catalog` | `processStudents`, `processGiftItems`, the getters, and the `DataManager` state as a class |

Code that runs loops is written as methods with `while`/`for` loops. Each such method is proved
equal to a specification function, and the properties are proved about that function:
`AnalyzeGifts`, `AnalyzeEach`, `AnalyzeGift`, `FirstKeyWithValue`, `GenerateOptimalSection` and its three steps,
`CollectMatchingStudents`, the section generators, `ProcessStudents`, `ProcessGiftItems`,
`DedupByName` and `DataManager.GetAllStudents`. The module-level state of js/data.js
(`studentsData`, `itemsData`, `giftItems`) is the class `Catalog.DataManager`.

These modelling choices are assumptions, not behaviour of the source:

- `localeCompare(…, 'ja')` is a parameter `collate`. Contracts about name order require it to be
  a consistent comparator (`Sections.ValidCollator`: total and transitive).
- Theorems about the meaning of the sections require the selected students to have distinct
  Ids (`Records.DistinctIds`). The operations themselves do not require it; with duplicates they
  behave like the source, where the last write to `multipliers[Id]` wins.

Two behaviours of `analyzeGifts` are easy to misread:

- **Tag matches are counted per position.** `calculateMultiplier` counts the positions of
  `[...FavorItemTags, ...FavorItemUniqueTags]` whose tag occurs in the gift's tags
  (js/analyzer.js:14-15). It does not count distinct shared tags. A tag listed twice, or in both
  lists, counts twice (`Scoring.CountMatchesIsPositions`, `Scoring.CountMatchesAppend`).
- **Tie lists are in ascending Id order.** The students of a freeChoice entry are collected by
  `Object.entries(multipliers)`. That visits the array-index Id keys in ascending order, not in
  the order the students were selected (`Sections.MatchingStudentsAscending`,
  `Analyzer.TopStudentsIds`). The exclusive student is likewise found by the first matching
  key.

## Model

| member | source | states |
|---|---|---|
| Scoring.CountMatches | js/analyzer.js:14-15 | the match count never exceeds the number of the student's tags in both lists |
| Scoring.CountMatchesIsPositions | js/analyzer.js:14-15 | the count equals the number of positions of favour tags followed by unique tags whose tag is among the gift's tags |
| Scoring.CountMatchesAppend | js/analyzer.js:14-15 | counting over a concatenation adds the counts of the two parts |
| Scoring.StudentMatchesSplit | js/analyzer.js:10-15 | a student's count is the favour-tag count plus the unique-tag count |
| Scoring.CountMatchesMonotoneInItemTags | js/analyzer.js:12-15 | adding tags to a gift never lowers the count |
| Scoring.CountMatchesDependsOnTagSet | js/analyzer.js:15 | the count depends only on the set of the gift's tags, not on their order or repetition |
| Scoring.CalculateMultiplier | js/analyzer.js:9-26 | the multiplier is between 1 and 4 |
| Scoring.MultiplierSteps | js/analyzer.js:17-25 | multiplier 4 iff at least 3 matches, 3 iff exactly 2, 2 iff exactly 1, 1 iff none |
| Scoring.StepMultiplier | js/analyzer.js:17-25 | the multiplier for a match count is one more than the count, capped at 3 matches |
| Scoring.StepMultiplierMonotone | js/analyzer.js:17-25 | more matches never give a smaller multiplier |
| Scoring.MultiplierMonotoneInStudentTags | js/analyzer.js:9-26 | adding a tag to a student's favour list never lowers their multiplier for a gift |
| Scoring.MultiplierMonotoneInGiftTags | js/analyzer.js:9-26 | extending a gift's tags never lowers any student's multiplier for it |
| Analysis.MultipliersOf | js/analyzer.js:34-43 | the multiplier map has exactly the selected Ids as keys, each mapped to a value from 1 to 4 |
| Analysis.MaxMultiplierOf | js/analyzer.js:35-42 | the running maximum is 1 for no students; it bounds every student's multiplier and is reached by one of them when there are students |
| Analysis.AnalyzeGift | js/analyzer.js:33-53 | the loop over the students builds exactly `GiftAnalysisOf`: the multiplier map, the maximum and the competition count |
| Analysis.MultipliersOfAt | js/analyzer.js:37-39 | with distinct Ids, the map holds each student's own multiplier under their Id |
| Analysis.TiedIdsAreTiedStudents | js/analyzer.js:45 | the keys holding the maximum are exactly the Ids of students with the maximum multiplier |
| Analysis.GiftSummary | js/analyzer.js:33-53 | for a non-empty selection: the maximum is 1 to 4, bounds every value of the map and is held by some key, and the competition count is between 1 and the number of students |
| ObjectKeys.AscendingKeys | js/analyzer.js:75 | the keys of an integer-keyed object, visited strictly ascending, each exactly once |
| ObjectKeys.Values | js/data.js:174 | `Object.values`: one value per key, the value of the i-th key in ascending key order at position i, and exactly the map's values |
| Sorting.SortBy | js/analyzer.js:129-137 | sorting gives a permutation of its input, of the same length |
| Sorting.SortBySorted | js/analyzer.js:129-137 | under a total preorder, the sorted list is in order |
| Sorting.SortByMembers | js/analyzer.js:129-137 | sorting keeps exactly the same elements |
| Sections.RarityOrder | js/analyzer.js:172-175 | SSR ranks 4, SR 3, R 2, N 1 (each an iff), every other name 0 |
| Sections.SsrBlacklist | js/analyzer.js:2-7 | the four SSR gift names (three bouquets and a photo card) never listed in unchi; `Sections.GenerateUnchiSection` and `Analyzer.UnchiContents` state the exclusion |
| Sections.IsOptimal | js/analyzer.js:74 | the exclusive routing guard: maximum above 1 and competition count 1; `Analyzer.ExclusiveMeaning` states what it means for the students |
| Sections.IsFreeChoice | js/analyzer.js:110 | the shared routing guard: maximum above 1 and competition count above 1; `Analyzer.SharedMeaning` states what it means for the students |
| Sections.IsTailor | js/analyzer.js:146 | the tailor guard: rarity SR and maximum 1; `Analyzer.TailorContents` states what it means for the students |
| Sections.IsUnchi | js/analyzer.js:160-161 | the unchi guard: rarity SSR, maximum 1, name not blacklisted; `Analyzer.UnchiContents` states what it means for the students |
| Sections.FindById | js/analyzer.js:114 | `find` by Id: found iff some selected student has that Id, and the found one is the first student with that Id |
| Sections.LastById | js/analyzer.js:66-71 | the student that repeated `result[student.Id] = …` leaves for an Id: found iff the Id is selected, and it is the last student with that Id |
| Sections.LookupDistinct | js/analyzer.js:114 | with distinct Ids, both lookups give back the student itself |
| Sections.CompareOptimal | js/analyzer.js:88-93 | negative iff the first entry has the larger multiplier, or the same multiplier and the higher rarity rank; zero iff both keys tie |
| Sections.OptimalOrderIsPreorder | js/analyzer.js:88-93 | the exclusive-list comparator (multiplier descending, then rarity rank descending) is a total preorder |
| Sections.SoleTiedId | js/analyzer.js:74 | a record with maximum above 1 and competition count 1 has exactly one tied key |
| Sections.FirstKeyWithValue | js/analyzer.js:75-83 | the scan of entries finds nothing iff no key holds the value, else the least key holding it |
| Sections.EmptyLists | js/analyzer.js:66-71 | one empty gift list per selected Id, holding the last student with that Id |
| Sections.PushExclusive | js/analyzer.js:74-83 | an exclusive gift is appended to its one student's list and every other list is unchanged |
| Sections.RouteExclusive | js/analyzer.js:66-85 | after both loops every selected Id holds its exclusive gifts in gift order |
| Sections.SortEachList | js/analyzer.js:87-94 | every list is replaced by its sorted form, keys and students unchanged |
| Sections.KeepNonEmpty | js/analyzer.js:96-101 | exactly the entries with a non-empty list are kept |
| Sections.GenerateOptimalSection | js/analyzer.js:63-104 | each listed Id maps to that selected student, with a non-empty list that is a permutation of the gifts exclusive to them, sorted by the comparator |
| Sections.OptimalSectionShape | js/analyzer.js:63-104 | the same three facts about `OptimalSectionOf`, the function the optimal section equals |
| Sections.MatchingStudentsMembers | js/analyzer.js:112-119 | a student is collected iff it is the one `find` returns for a key holding the maximum |
| Sections.MatchingStudentHolds | js/analyzer.js:112-119 | a collected student is a selected student whose Id holds the value |
| Sections.MatchingStudentIncluded | js/analyzer.js:112-119 | the student `find` returns for a key holding the value is collected |
| Sections.MatchingStudentsAscending | js/analyzer.js:112-119 | every collected student's Id is one of the keys, and the Ids are strictly ascending when the keys are |
| Sections.CollectMatchingStudents | js/analyzer.js:111-119 | the entries loop computes exactly `MatchingStudents` over the keys in ascending order |
| Sections.SharedOrderIsPreorder | js/analyzer.js:129-137 | the shared-list comparator (multiplier, then tie size, then rarity rank, each descending) is a total preorder |
| Sections.CompareShared | js/analyzer.js:129-137 | negative iff the first entry wins on multiplier, then on number of students, then on rarity rank; zero iff all three tie |
| Sections.GenerateFreeChoiceSection | js/analyzer.js:106-140 | the shared list is the sorted selection of records with maximum above 1 and competition count above 1, as a permutation, in comparator order |
| Sections.NameOrderIsPreorder | js/analyzer.js:151 | ordering gifts by a consistent collator is a total preorder |
| Sections.GenerateTailorSection | js/analyzer.js:142-154 | the SR gifts whose maximum is 1, as a permutation of the selection, sorted by name |
| Sections.GenerateUnchiSection | js/analyzer.js:156-170 | the SSR gifts whose maximum is 1 and whose name is not blacklisted, as a permutation of the selection, sorted by name |
| Analyzer.AnalyzeEach | js/analyzer.js:33-53 | the `map` over the gifts yields one record per gift, in order, each exactly `GiftAnalysisOf` of the selected students and that gift |
| Analyzer.AnalyzeGifts | js/analyzer.js:28-61 | null iff no students or no gifts; otherwise exactly the four sections `ResultOf` defines |
| Analyzer.JunkMeaning | js/analyzer.js:35-42 | the maximum is 1 iff no selected student likes the gift |
| Analyzer.ExclusiveSufficient | js/analyzer.js:74 | optimal routing with a sole tied key implies the gift is strictly preferred by that student |
| Analyzer.ExclusiveNecessary | js/analyzer.js:74 | a gift one student likes strictly more than all others is routed to optimal, under their Id |
| Analyzer.ExclusiveMeaning | js/analyzer.js:74 | optimal routing to a student's Id iff the gift is exclusive to that student |
| Analyzer.SharedSufficient | js/analyzer.js:110 | shared routing implies two different students share the best multiplier, above 1 |
| Analyzer.SharedNecessary | js/analyzer.js:110 | two top students with the same multiplier above 1 make the gift shared |
| Analyzer.SharedMeaning | js/analyzer.js:110 | shared routing iff two different students share the best multiplier above 1 |
| Analyzer.TopStudentsSound | js/analyzer.js:112-119 | every collected student is selected and has the maximum multiplier |
| Analyzer.TopStudentsComplete | js/analyzer.js:112-119 | every selected student with the maximum multiplier is collected |
| Analyzer.TopStudentsIds | js/analyzer.js:112-119 | the collected Ids are strictly ascending and are exactly the tied keys |
| Analyzer.SharedEntryMeaning | js/analyzer.js:110-125 | a shared entry keeps the gift and the maximum, and its students are exactly the selected students with the maximum, ascending by Id, as many as the competition count |
| Analyzer.TailorContents | js/analyzer.js:145-149 | a gift is in tailor iff it is given, SR, and liked by nobody |
| Analyzer.UnchiContents | js/analyzer.js:159-165 | a gift is in unchi iff it is given, SSR, liked by nobody and not blacklisted |
| Analyzer.JunkSorted | js/analyzer.js:151-167 | tailor and unchi are in collator order by name |
| Analyzer.FreeChoiceContents | js/analyzer.js:109-127 | an entry is in freeChoice iff it is the shared entry of a given gift whose best multiplier above 1 two students share |
| Analyzer.FreeChoiceEntries | js/analyzer.js:109-127 | every freeChoice entry names a given gift, its best multiplier above 1, and exactly the students reaching it, at least two, ascending by Id |
| Analyzer.FreeChoiceSorted | js/analyzer.js:129-137 | freeChoice is ordered by multiplier, then tie size, then rarity rank, all descending |
| Analyzer.OptimalKeys | js/analyzer.js:96-101 | a selected student appears in optimal iff some given gift is exclusive to them, and only selected Ids appear |
| Analyzer.OptimalEntry | js/analyzer.js:66-71 | a student's optimal entry carries that student |
| Analyzer.OptimalLists | js/analyzer.js:73-85 | a student's optimal list holds exactly the given gifts exclusive to them, each with their multiplier |
| Analyzer.OptimalSorted | js/analyzer.js:87-94 | each optimal list is ordered by multiplier descending, then rarity rank descending |
| Analyzer.ExclusiveListed | js/analyzer.js:73-85 | a gift in a student's optimal list is exclusive to the student with that Id |
| Analyzer.ExclusiveIsListed | js/analyzer.js:73-85 | a given gift exclusive to a student lies in that student's optimal list |
| Analyzer.ExclusivePlacement | js/analyzer.js:73-85 | a given gift is in some optimal list iff it is exclusive to some student |
| Analyzer.SharedPlacement | js/analyzer.js:109-127 | a given gift has a freeChoice entry iff two students share its best multiplier above 1 |
| Analyzer.GiftPlacement | js/analyzer.js:55-60 | every given gift lands in at most one section; a liked gift lands in optimal or freeChoice; a gift nobody likes is in neither; a gift is in tailor or unchi iff nobody likes it and it is SR, or SSR and not blacklisted |
| Analyzer.GiftTrichotomy | js/analyzer.js:73-127 | for each gift exactly one holds: exclusive to one student, shared by two, or liked by nobody |
| Codec.KeyValue | js/data.js:2-3 | the XOR key `_0xf3[0] + _0xf3[1]` is 90 |
| Codec.Decode | js/data.js:3 | the decoded string has one code unit per code, each the code XOR 90 |
| Codec.DecodeInvolution | js/data.js:3 | decoding twice gives back the codes |
| Codec.DecodeInjective | js/data.js:3 | different code lists decode to different strings |
| Codec.SiteRootText | js/data.js:5 | `_a` decodes to "https://schaledb.com/" |
| Codec.DataDirText | js/data.js:6 | `_b` decodes to "data/jp/" |
| Codec.StudentsTableText | js/data.js:7 | `_s` decodes to "students.min.json" |
| Codec.ItemsTableText | js/data.js:8 | `_i` decodes to "items.min.json" |
| Codec.StudentIconsText | js/data.js:9 | `_p1` decodes to "images/student/icon/" |
| Codec.ItemIconsText | js/data.js:10 | `_p2` decodes to "images/item/icon/" |
| Codec.UiImagesText | js/data.js:11 | `_p3` decodes to "images/ui/" |
| Codec.Endpoint | js/data.js:14 | site root, data directory, then the students table for type 's' and the items table otherwise; `Codec.EndpointKinds` states the choice |
| Codec.ImagePath | js/data.js:15 | site root, the student or item icon directory, the name, `.webp`; `Codec.ImagePathInjective` and `Codec.ImageKindsDiffer` state what distinguishes paths |
| Codec.UiImagePath | js/data.js:16 | site root, the UI image directory, the name, `.png`; `Codec.UiImagePathInjective` states that the name is recoverable |
| Codec.StudentImageUrl | js/data.js:123-125 | the student image path of the Id written in decimal; `Codec.StudentImageUrls` states injectivity and disjointness from gift URLs |
| Codec.GiftImageUrl | js/data.js:127-129 | the item image path of the icon name; `Codec.GiftImageUrlInjective` states injectivity |
| Codec.EndpointKinds | js/data.js:14 | the endpoint is the students table exactly for type 's'; every other type gives the items table |
| Codec.ImagePathInjective | js/data.js:15 | for one type, different names give different image paths |
| Codec.ImageKindsDiffer | js/data.js:15 | a student image path never equals an item image path |
| Codec.UiImagePathInjective | js/data.js:16 | different names give different UI image paths |
| Codec.Decimal | js/data.js:123-125 | the decimal text of an Id is non-empty, all digits, and has no leading zero unless the Id is 0 |
| Codec.DecimalValue | js/data.js:123-125 | the decimal text reads back as the number |
| Codec.DecimalInjective | js/data.js:123-125 | different Ids have different decimal texts |
| Codec.StudentImageUrls | js/data.js:123-129 | different student Ids give different image URLs, and no student URL is a gift URL |
| Codec.GiftImageUrlInjective | js/data.js:127-129 | different icon names give different gift image URLs |
| Codec.MultiplierIconUrl | js/data.js:145-147 | a badge URL exists iff the multiplier is 2, 3 or 4 |
| Codec.MultiplierIconsDistinct | js/data.js:146-147 | the three badge URLs are pairwise different |
| Catalog.ProcessedStudentsMeaning | js/data.js:52-69 | an entry is kept iff Id, Name and FavorItemTags are truthy; it keeps its key and fields, and a missing unique-tag list becomes empty |
| Catalog.StudentsVisitedKept | js/data.js:55-66 | after visiting some keys, exactly the kept entries among them are stored, each shaped |
| Catalog.ProcessStudentsIdempotent | js/data.js:52-69 | a shaped table written back and shaped again is unchanged |
| Catalog.ProcessStudents | js/data.js:52-69 | the loop over the entries builds exactly `ProcessedStudents` |
| Catalog.ProcessedGiftsMeaning | js/data.js:71-93 | an entry is kept iff it is a "Favor" item with truthy Id, Name, Tags and Icon; a missing or empty Rarity becomes "N" |
| Catalog.GiftsVisitedKept | js/data.js:74-90 | after visiting some keys, exactly the kept items among them are stored, each shaped |
| Catalog.ProcessGiftItemsIdempotent | js/data.js:71-93 | a shaped gift table written back as Favor items and shaped again is unchanged |
| Catalog.ProcessGiftItems | js/data.js:71-93 | the loop with its two `continue` guards builds exactly `ProcessedGifts` |
| Catalog.FirstNamed | js/data.js:158-165 | the first student with a name exists iff the name occurs, and it has that name |
| Catalog.FirstOfEachNameFrom | js/data.js:158-165 | the filter keeps only students of its input |
| Catalog.FirstOfEachNameNames | js/data.js:158-165 | the filter keeps every name of its input |
| Catalog.FirstOfEachNameDistinct | js/data.js:158-165 | no two kept students share a name |
| Catalog.FirstOfEachNameFirst | js/data.js:158-165 | the student kept for a name is the first with that name |
| Catalog.FirstOfEachNameSorted | js/data.js:158-165 | filtering a sorted list keeps it sorted |
| Catalog.DedupByName | js/data.js:158-165 | the `seen`-set filter loop computes the first-of-each-name list |
| Catalog.StudentNameOrderIsPreorder | js/data.js:154-156 | ordering students by a consistent collator is a total preorder |
| Catalog.AllStudentsMeaning | js/data.js:151-166 | empty before loading; after it: sorted by name, distinct names, only table students, every name present, and the first of each name in sorted order kept |
| Catalog.AllStudentsSorted | js/data.js:151-166 | the de-duplicated list is in collator order |
| Catalog.AllStudentsCover | js/data.js:151-166 | the de-duplicated list holds only table students and every table name |
| Catalog.DataManager.GetAllStudents | js/data.js:151-166 | the method computes exactly `AllStudentsOf` from the loaded table |
| Catalog.LookupIn | js/data.js:168-170 | null before loading, the entry for a present key, undefined for a missing key |
| Catalog.DataManager.GetStudent | js/data.js:168-170 | null iff nothing is loaded; found iff the key is in the loaded students table, with its entry |
| Catalog.StudentLookupAfterLoad | js/data.js:168-170 | after loading, a key finds a student iff its raw entry was kept, and that student is its shaped form |
| Catalog.DataManager.GetGift | js/data.js:177-179 | null iff nothing is loaded; found iff the key is in the loaded gift table, and then the gift is among all gifts |
| Catalog.GiftLookupAfterLoad | js/data.js:177-179 | after loading, a key finds a gift iff its raw item was kept, and that gift is its shaped form |
| Catalog.AllGiftsOf | js/data.js:172-175 | empty before loading; after it, one gift per key, the gift of the i-th key in ascending key order at position i, and exactly the table's gifts |
| Catalog.DataManager.GetAllGifts | js/data.js:172-175 | empty before loading; after it exactly the loaded gifts |
| Catalog.DataManager.IsDataLoaded | js/data.js:181-183 | loaded iff neither `GetStudent` nor `GetGift` answers null for any key |
| Catalog.DataManager.constructor | js/data.js:18-20 | all three tables start null and the data is not loaded |
| Catalog.DataManager.Load | js/data.js:41-43 | the tables become the shaped students, the raw items and the shaped gifts, and the data counts as loaded |

## Left out
- `fetchData`'s network requests, response checks, JSON parsing and error logging (js/data.js:25-50) are not modelled, since these are I/O. `Catalog.DataManager.Load` takes the two parsed tables and makes the three assignments of js/data.js:41-43.
- `loadImageAsBlob`, the image cache, the pending-request map and the blob getters (js/data.js:95-149) are not modelled, since they are network, promise and object-URL effects. The URLs they fetch are modelled by `Codec.StudentImageUrl`, `Codec.GiftImageUrl` and `Codec.MultiplierIconUrl`, and so is the multiplier guard at js/data.js:146.
- Japanese collation is not modelled. `localeCompare(…, 'ja')` is a parameter `collate`, and only consistency (totality and transitivity) is assumed of it.
- `Array.prototype.sort` is modelled by a stable insertion sort. The contracts state permutation and order, not the placement of equally ranked elements.
- JSON values of unexpected types are not modelled. The raw tables' fields are modelled as present or absent (`Option`), and Ids as natural numbers (student Ids bounded as below), where 0 is the only falsy Id. Strings, tags and categories of other JSON types are outside the model.
- Object keys, and so student Ids, are array indices: natural numbers below 2^32 - 1 (`ObjectKeys.Key`), which `Object.entries` and `Object.values` visit in ascending order. Larger integer keys and non-numeric keys, which JavaScript visits after the indices in insertion order, are not modelled. Gift Ids are never used as keys and stay unbounded.
- `Scoring.CalculateMultiplier`: the `|| []` defaults for missing tag lists (js/analyzer.js:10-12) are not modelled, because `Records.Student` and `Records.Gift` always carry their lists. These cases cannot arise in the program: every caller passes records built by `processStudents` and `processGiftItems`, which always supply both lists.
- `Sections.RarityOrder` returns 0 for every unknown rarity. In the source, inherited property names such as "toString" would yield a function rather than 0; this is not modelled.
- `Codec.Decode` works on 16-bit code units. `String.fromCharCode`'s reduction of codes outside 0..65535 and of non-integer codes is not modelled, since every code in the file is below 128.
- Record fields are Dafny strings, while the URL builders work on UTF-16 code units. The conversion between them is not modelled: `Codec.GiftImageUrl` takes the icon name as code units, and `Codec.StudentImageUrl` takes the Id as a natural number.
- `Codec.Decimal` writes every natural number in plain digits. JavaScript writes integers of 10^21 and above in exponent form; Ids that large are not modelled.
- `Codec.MultiplierIconUrl` takes an integer multiplier. Fractional or non-numeric arguments, which pass the guard in JavaScript and give other file names, are not modelled.
- The tailor and unchi sections are modelled as lists of gifts, not as the `{ gift }` wrapper objects the source pushes.
- Theorems about the meaning of the sections (`Analyzer.ExclusiveMeaning` and those after it) require distinct student Ids. The operations do not require distinct Ids.
- js/app.js (the page, the selection UI, rendering and storage) is not part of this model.
