# Tutoring-school timetable and admission rules, in Dafny

This project models two parts of a tutoring school's web application.

**The weekly timetable layout of the frontend.** Four components use it:
- the admin class list (`ClassesManagement.tsx`);
- the admin student list (`StudentsManagement.tsx`);
- the parent dashboard (`ParentDashboard.tsx`);
- the student dashboard (`StudentDashboard.tsx`).

Each component turns a day's classes into positioned cards in four steps:
- it parses the `"HH:MM - HH:MM"` slot into minutes since midnight;
- it derives a pastel colour from the subject;
- it groups classes whose times strictly overlap, each joining the first group it meets;
- it gives every card a column and a column count, which the style function turns into `top`, `height`, `left` and `width`.

The four copies share the parser, the colour hash, the grouping and the geometry, which are modelled once. Column assignment comes in two versions, and both are modelled:
- **greedy** (`ClassesManagement.tsx`): a class takes the lowest column that no earlier, still-running class of its group holds. The count is one more than the highest column.
- **position** (the other three): a class's column is its position in its group. The count is the group's size.

**The backend rules for classes and subscriptions.**
- Validating a class's time slot when the class is created.
- The case-insensitive filter by weekday.
- The ordered checks for registering a student to a class: the class and student exist, no duplicate, capacity, a usable subscription and no same-day clash.
- Creating, using and deleting a session package (a "subscription"), and the two properties the package derives from its counts.

## How the model is built

Modules follow the program's structure:
- `Intervals`, `TimeSlotParser`, `SubjectColor`, `StableSort`, `OverlapGroups`, `GreedyColumns`, `PositionColumns`, `Geometry`, `Timetable` and `DayView` cover the frontend.
- `PyText`, `SlotValidation`, `SubscriptionModel`, `Db`, `ClassService` and `SubscriptionService` cover the backend.
- `Common`, `Sequences` and `Positions` hold shared helpers.

The loops of the source are methods with loop invariants:
- the colour hash;
- the grouping;
- the greedy column passes over arrays of columns and counts;
- the position variant's result pushes;
- the registration's conflict loop.

Each method is proved equal to a function. Each function is then related, by lemmas, to an independent statement of what the source promises:

| method | function it computes | related to, by |
|---|---|---|
| `GenerateColor` | `ColorOf` | the colour bands and the default (`ColorOf`'s `ensures`) |
| `BuildGroups` | `GroupsOf` | the grouping rules `WellFormed` (`GroupsWellFormed`) |
| `DetectOverlapsGreedy` | `GreedyLayout` | the stable sort (`GreedyKeepsCards`), the lowest free column `Mex` (`ColumnRule`), no collision (`GreedyNoCollision`) |
| `DetectOverlapsByPosition` | `PositionLayout` | a permutation of the input (`PositionKeepsCards`), position in group (`PositionColumnsAt`), no collision (`PositionNoCollision`) |
| `RegisterStudentToClass` | `Admission` | the conjunction of the checks `Admissible` (`AdmittedIff`); `FirstConflict` against `AllClear` (`ClearIff`) |
| `CreateSubscription` | `CreateOutcome` | `CreateCheckIff`, `CreatedIsFresh` |
| `UseSubscriptionSession` | `UseOutcome` | `UseCheckIff`, `UseAccounting` |
| `DeleteSubscription` | `Remove` | `RemoveById` |

The backend database is a class, `Db.Database`:
- its fields are the class rows, the student ids, the registrations and the subscriptions, kept in insertion order;
- its id counters hand out primary keys;
- `Valid()` states what the schema's primary keys and unique constraint guarantee.
- `SessionsKept()` states that no package has more sessions used than bought. No column constraint enforces it (`used_sessions` and `total_sessions` are independent integer columns). It is an invariant of the subscription operations: each of them keeps it whenever it held before, and none requires it.

Every service operation is a method that changes `db`. It is proved against a pure decision function of the old state, and it is proved to keep `Valid()`.

A few conventions fix how the source's runtime is represented:
- HTTP errors are values `HttpError(status, detail)` inside a `Result`.
- An exception the service does not catch becomes the framework's `500 Internal Server Error`.
- `date.today()` is a parameter `today`, and dates are day numbers.
- The geometry is computed over Dafny's exact `real`.
- The JavaScript hash is computed over unbounded integers, with each truncation to 32 bits written out where JavaScript's shift operators perform it.

Three behaviours of the code are worth stating outright:
- **Hours above 23.** The frontend parser has no hour check, so `"25:00-26:00"` yields 1500–1560 and is drawn below the grid (`TimeSlotParser.OutOfRangeHoursParse`).
- **Zero-length slots.** Under the strict test `a.start < b.end && a.end > b.start`, a zero-length slot never overlaps anything, not even an identical slot.
- **Malformed stored slots.** A malformed stored slot makes the registration check raise an uncaught `ValueError`, which is a 500. `ClassService.NoServerErrorOnValidatedSlots` proves that this cannot happen when every stored slot passed creation's validation.

## Model

| member | source | states |
|---|---|---|
| Intervals.Overlaps | frontend/src/components/admin/ClassesManagement.tsx:122-123 | strict overlap `a.start < b.end && a.end > b.start`; its symmetry, the touching case and the negated spelling are `OverlapsSymmetric`, `TouchingDoesNotOverlap` and `NegatedFormAgrees` |
| Intervals.NegatedFormAgrees | frontend/src/components/admin/StudentsManagement.tsx:212-217 | the test `!(e.end <= c.start \|\| c.end <= e.start)` is exactly strict overlap `c.start < e.end && c.end > e.start` |
| Intervals.OverlapsSymmetric | frontend/src/components/admin/ClassesManagement.tsx:122-123 | strict overlap does not depend on which class is tested against which |
| Intervals.TouchingDoesNotOverlap | frontend/src/components/dashboard/ParentDashboard.tsx:114-132 | two classes where one ends when the other starts do not overlap, in either order |
| TimeSlotParser.ParseTimeSlot | frontend/src/components/admin/ClassesManagement.tsx:78-89 | `parseTimeSlot`: null for an empty or non-matching string, otherwise the two clock values in minutes; `ParseIffMatches`, `ParseAssembled` and `ParseSound` state exactly when it succeeds and with what |
| TimeSlotParser.ParseIffMatches | frontend/src/components/admin/ClassesManagement.tsx:78-89 | the parser succeeds exactly on strings of the form 1–2 digits, `:`, 2 digits, spaces, `-`, spaces, 1–2 digits, `:`, 2 digits |
| TimeSlotParser.ParseAssembled | frontend/src/components/admin/StudentsManagement.tsx:172-183 | such a string parses to start = H1·60+M1 and end = H2·60+M2 |
| TimeSlotParser.ParseSound | frontend/src/components/dashboard/ParentDashboard.tsx:87-96 | every successful parse comes from such pieces and yields H·60+M for each end |
| TimeSlotParser.OutOfRangeHoursParse | frontend/src/components/dashboard/StudentDashboard.tsx:63-74 | no hour range check: `"25:00-26:00"` parses to 1500–1560 |
| TimeSlotParser.ReversedRangeParses | frontend/src/components/admin/ClassesManagement.tsx:78-89 | no end-after-start check: `"10:00 - 9:30"` parses to 600–570 |
| TimeSlotParser.EmptyDoesNotParse | frontend/src/components/admin/StudentsManagement.tsx:253-254 | the empty string, which a missing slot becomes, does not parse |
| SubjectColor.ToInt32 | frontend/src/components/admin/ClassesManagement.tsx:97 | JavaScript's ToInt32: the unique 32-bit signed value congruent to the input modulo 2^32 |
| SubjectColor.JsRem | frontend/src/components/admin/ClassesManagement.tsx:101-103 | JavaScript `%`: the sign of the dividend and the magnitude of abs(a) mod b |
| SubjectColor.CodeUnits | frontend/src/components/admin/ClassesManagement.tsx:96-97 | `charCodeAt` runs over UTF-16 code units: one or two per character, each below 2^16, none only for the empty string |
| SubjectColor.PastelOf | frontend/src/components/admin/ClassesManagement.tsx:101-105 | hue = abs(hash) mod 360 in [0, 359], saturation in [65, 79], lightness in [55, 69] (the source comments say 80 and 70, which `% 15` never reaches) |
| SubjectColor.ColorOf | frontend/src/components/admin/StudentsManagement.tsx:186-200 | the default grey exactly for the empty subject, otherwise a colour in the bands above |
| SubjectColor.Hash | frontend/src/components/admin/ClassesManagement.tsx:95-98 | the `hash = code + ((hash << 5) - hash)` fold over the code units; `HashAppend` states one step, `HashBound` bounds it, and `GenerateColor` proves the loop computes it |
| SubjectColor.GenerateColor | frontend/src/components/admin/ClassesManagement.tsx:92-106 | the hash loop over the code units computes `ColorOf(subject)` |
| SubjectColor.HashBound | frontend/src/components/dashboard/ParentDashboard.tsx:100-103 | the magnitude of the hash is at most (number of code units)·(2^31+2^16), far inside the range where JavaScript numbers are exact, so the integer model of the untruncated subtraction loses nothing |
| SubjectColor.HashAppend | frontend/src/components/dashboard/StudentDashboard.tsx:80-83 | one more code unit u makes the hash `u + (ToInt32(hash << 5) - hash)`, with the previous hash untruncated |
| SubjectColor.CodeUnitsAppend | frontend/src/components/admin/ClassesManagement.tsx:96-97 | the code units of a concatenation are the concatenation of the code units |
| SubjectColor.SurrogatePair | frontend/src/components/admin/ClassesManagement.tsx:97 | a character outside the Basic Multilingual Plane contributes a high and a low surrogate |
| SubjectColor.SingleLetter | frontend/src/components/admin/ClassesManagement.tsx:92-106 | `"A"` hashes to 65 and gets hsl(65, 70%, 55%) |
| SubjectColor.HueIsMagnitudeRemainder | frontend/src/components/admin/ClassesManagement.tsx:101 | `Math.abs(hash % 360)` gives the same hue for a hash and its negation |
| StableSort.Sort | frontend/src/components/admin/ClassesManagement.tsx:110 | the sort by start is ordered, a permutation, and stable: it keeps the relative order of the elements of each key |
| StableSort.SortUnique | frontend/src/components/admin/ClassesManagement.tsx:110 | stability determines the result: any ordered sequence that keeps each key's elements in input order is the sort |
| StableSort.SortOfSorted | frontend/src/components/admin/ClassesManagement.tsx:141 | sorting an already ordered group again changes nothing |
| Timetable.SortByStart | frontend/src/components/admin/StudentsManagement.tsx:204 | `[...dayClasses].sort(...)` by start is ordered by start, a permutation of the day's cards, and stable |
| Timetable.Positioned | frontend/src/components/admin/StudentsManagement.tsx:237-241 | a spread copy changes only the column and the count; everything the card shows is kept |
| Timetable.CardsPermutation | frontend/src/components/admin/StudentsManagement.tsx:233-245 | reordering cards reorders what they show, as a multiset |
| Timetable.DayGroupsWellFormed | frontend/src/components/admin/ClassesManagement.tsx:115-137 | the groups of a day satisfy every grouping rule below, over the sorted cards |
| OverlapGroups.FirstOverlapping | frontend/src/components/admin/ClassesManagement.tsx:119-131 | the index of the first group that holds a class overlapping the new one, or the number of groups when none does |
| OverlapGroups.Place | frontend/src/components/admin/ClassesManagement.tsx:119-136 | one class joins the first group it overlaps (`FirstOverlapping`) or opens a new group; `GroupsWellFormed` characterises the result |
| OverlapGroups.GroupsOf | frontend/src/components/admin/ClassesManagement.tsx:115-137 | the groups after placing the first n sorted classes; `GroupsWellFormed` states every grouping rule of it and `BuildGroups` proves the loop builds it |
| OverlapGroups.GroupsWellFormed | frontend/src/components/admin/ClassesManagement.tsx:115-137 | every class is in exactly one group; groups are non-empty and in creation order; each member after the first of its group overlaps an earlier member of it; no member of an earlier group placed before a class overlaps it |
| OverlapGroups.BuildGroups | frontend/src/components/admin/StudentsManagement.tsx:207-230 | the grouping loop builds exactly `GroupsOf(slots)` |
| OverlapGroups.OverlappingShareGroup | frontend/src/components/dashboard/StudentDashboard.tsx:97-118 | over classes sorted by start, two classes that strictly overlap are in the same group |
| OverlapGroups.Locate | frontend/src/components/admin/ClassesManagement.tsx:115-137 | every class is found in some group |
| GreedyColumns.MexFrom | frontend/src/components/admin/ClassesManagement.tsx:156-159 | `while (usedOffsets.includes(offsetIndex)) offsetIndex++` stops at the first value from c on that is not used |
| GreedyColumns.Mex | frontend/src/components/admin/ClassesManagement.tsx:156-159 | the lowest non-negative column not in the used set |
| GreedyColumns.MexAtMostSize | frontend/src/components/admin/ClassesManagement.tsx:156-159 | the lowest free column is at most the number of used columns |
| GreedyColumns.ColumnsPrefix | frontend/src/components/admin/ClassesManagement.tsx:143-162 | the columns of the first k members do not depend on the members after them |
| GreedyColumns.UsedColumns | frontend/src/components/admin/ClassesManagement.tsx:147-156 | the columns held by earlier members of the group with `prev.end > cur.start`; `UsedOffsets` proves the loop collects them |
| GreedyColumns.ColumnsOf | frontend/src/components/admin/ClassesManagement.tsx:143-162 | the column of each member in turn; `ColumnRule` states it is the least column free of `UsedColumns`, and `SameColumnNoOverlap` that one column never holds two overlapping members |
| GreedyColumns.ColumnRule | frontend/src/components/admin/ClassesManagement.tsx:143-162 | each member takes the lowest column that no earlier member of its group still running at its start holds |
| GreedyColumns.ColumnAtMostIndex | frontend/src/components/admin/ClassesManagement.tsx:143-162 | member k's column is at most k |
| GreedyColumns.SameColumnNoOverlap | frontend/src/components/admin/ClassesManagement.tsx:148-161 | two members of a group in the same column never strictly overlap, even when a slot ends before it starts |
| GreedyColumns.MaxOf | frontend/src/components/admin/ClassesManagement.tsx:165 | `Math.max(...values, 0)` is an upper bound of the values, at least 0, and attained unless it is 0 |
| GreedyColumns.TotalBounds | frontend/src/components/admin/ClassesManagement.tsx:165-169 | every column is below the group's count, 1 + the highest column, and the count is at most the group's size |
| GreedyColumns.WriteAt | frontend/src/components/admin/ClassesManagement.tsx:161 | a member's cell holds the value written for it |
| GreedyColumns.WriteElsewhere | frontend/src/components/admin/ClassesManagement.tsx:161 | cells of non-members are untouched |
| GreedyColumns.TableRows | frontend/src/components/admin/ClassesManagement.tsx:141-169 | each group's row holds its members' columns and its count repeated |
| GreedyColumns.WriteGroupsAt | frontend/src/components/admin/ClassesManagement.tsx:140-170 | after all groups are processed, each class's cells hold its own group's values |
| GreedyColumns.LayoutAt | frontend/src/components/admin/ClassesManagement.tsx:140-172 | the card at sorted position p gets its member's column and its group's count, and nothing else changes |
| GreedyColumns.GreedyLayout | frontend/src/components/admin/ClassesManagement.tsx:109-173 | the greedy `detectOverlaps` result; `GreedyKeepsCards`, `LayoutAt`, `GreedyBounds` and `GreedyNoCollision` state what it holds, and `DetectOverlapsGreedy` proves the method returns it |
| GreedyColumns.GreedyKeepsCards | frontend/src/components/admin/ClassesManagement.tsx:110-172 | the result is the stable sort by start of the day's cards, so it is a permutation of them, ordered by start |
| GreedyColumns.GreedyBounds | frontend/src/components/admin/ClassesManagement.tsx:165-169 | 0 ≤ column < count ≤ the size of the class's group |
| GreedyColumns.GreedyNoCollision | frontend/src/components/admin/ClassesManagement.tsx:109-173 | two classes in the result whose times strictly overlap are drawn in horizontal bands that do not meet |
| GreedyColumns.GroupAlreadySorted | frontend/src/components/admin/ClassesManagement.tsx:141 | re-sorting a group of the sorted day changes nothing |
| GreedyColumns.AssignColumns | frontend/src/components/admin/ClassesManagement.tsx:143-162 | the member loop writes exactly the column-rule columns into the member cells |
| GreedyColumns.UsedOffsets | frontend/src/components/admin/ClassesManagement.tsx:147-156 | the collected `usedOffsets` are the columns of the earlier members still running |
| GreedyColumns.FirstFree | frontend/src/components/admin/ClassesManagement.tsx:156-159 | the `while` loop returns the lowest column not listed |
| GreedyColumns.FirstFreeUnique | frontend/src/components/admin/ClassesManagement.tsx:156-159 | the lowest free column depends only on the set of used ones |
| GreedyColumns.GroupColumns | frontend/src/components/admin/ClassesManagement.tsx:141-162 | the first half of a group's turn stores the column-rule columns |
| GreedyColumns.GroupTotal | frontend/src/components/admin/ClassesManagement.tsx:165-169 | the second half stores 1 + the highest column at every member |
| GreedyColumns.AssignTotal | frontend/src/components/admin/ClassesManagement.tsx:167-169 | stores the count at every member and nowhere else |
| GreedyColumns.PlaceGroups | frontend/src/components/admin/ClassesManagement.tsx:140-170 | the loop over the groups leaves each class with its group's column and count |
| GreedyColumns.DetectOverlapsGreedy | frontend/src/components/admin/ClassesManagement.tsx:109-173 | the greedy `detectOverlaps` returns `GreedyLayout`, whose properties are the lemmas above |
| PositionColumns.PositionLayout | frontend/src/components/admin/StudentsManagement.tsx:203-246 | the index-in-group `detectOverlaps` result; `PositionKeepsCards`, `PositionColumnsAt` and `PositionNoCollision` state what it holds |
| PositionColumns.DetectOverlapsByPosition | frontend/src/components/admin/StudentsManagement.tsx:203-246 | the grouping loop and the `result.push` loops return `PositionLayout` |
| PositionColumns.RowsAt | frontend/src/components/dashboard/ParentDashboard.tsx:134-141 | the k-th member of group g lands at the size of the earlier groups + k, with column k and count the group's size |
| PositionColumns.RowsLocate | frontend/src/components/admin/StudentsManagement.tsx:233-245 | every entry of the result is some member of some group |
| PositionColumns.FlattenDistinct | frontend/src/components/admin/StudentsManagement.tsx:233-245 | the groups, concatenated in creation order, list no class twice |
| PositionColumns.FlattenCovers | frontend/src/components/admin/StudentsManagement.tsx:233-245 | ... and list every class |
| PositionColumns.RowsKeepCards | frontend/src/components/admin/StudentsManagement.tsx:233-245 | so the concatenated rows show every card once |
| PositionColumns.PositionKeepsCards | frontend/src/components/dashboard/ParentDashboard.tsx:144-160 | the result is as long as the input and a permutation of its cards |
| PositionColumns.PositionColumnsAt | frontend/src/components/dashboard/StudentDashboard.tsx:120-132 | each card's column is its position in its group, its count is the group's size, and 0 ≤ column < count |
| PositionColumns.PositionNoCollision | frontend/src/components/admin/StudentsManagement.tsx:234-243 | two classes in the result whose times strictly overlap are drawn in horizontal bands that do not meet |
| Positions.PickAllPermutes | frontend/src/components/admin/StudentsManagement.tsx:233-245 | picking every position exactly once, in any order, is a permutation |
| Positions.PickPermutation | frontend/src/components/admin/StudentsManagement.tsx:233-245 | permuting positions permutes the picked elements |
| Geometry.WidthPercent | frontend/src/components/admin/ClassesManagement.tsx:355 | the width is 100 for a count of at most 1, and otherwise a share in (0, 100) that the count multiplies back to 100 |
| Geometry.ClassStyle | frontend/src/components/admin/ClassesManagement.tsx:350-365 | `getClassStyle`: top, height, left and width of a card; `CardSpansItsSlot`, `FitsInDayColumn` and `ColumnsDoNotMeet` state where it lies |
| Geometry.CardSpansItsSlot | frontend/src/components/admin/ClassesManagement.tsx:351-363 | top = (start − 8·60)/60·80 px, and top + height + 4 px reaches the end's pixel |
| Geometry.PixelsMonotone | frontend/src/components/dashboard/StudentDashboard.tsx:157-171 | later minutes are lower on the page, 4/3 px per minute |
| Geometry.FitsInDayColumn | frontend/src/components/dashboard/ParentDashboard.tsx:162-175 | 0 ≤ left and left + width ≤ 100 whenever 0 ≤ column < count |
| Geometry.ColumnsDoNotMeet | frontend/src/components/admin/StudentsManagement.tsx:270-284 | distinct columns of one width give bands that do not meet |
| Geometry.DistinctColumnsSideBySide | frontend/src/components/admin/ClassesManagement.tsx:355-356 | two cards with the same count and different columns below it are side by side |
| Geometry.NineToHalfPastTen | frontend/src/components/admin/ClassesManagement.tsx:350-365 | a 09:00–10:30 card, the second of four columns, has top 80, height 116, left 25, width 25 |
| DayView.Initial | frontend/src/components/admin/ClassesManagement.tsx:180-189 | a day card shows its class with the parsed slot and its subject's colour, in column 0 of 1 |
| DayView.DayClassesChecked | frontend/src/components/admin/ClassesManagement.tsx:176-191 | the admin copy: classes of the day with a non-empty slot that parses, in input order; `FiltersAgree` proves it equal to `DayClasses` |
| DayView.DayClasses | frontend/src/components/dashboard/StudentDashboard.tsx:136-151 | the other copies: classes of the day whose slot parses, in input order; `DayClassesCount` and `DayClassesAt` state which classes appear and how |
| DayView.FiltersAgree | frontend/src/components/admin/ClassesManagement.tsx:176-191 | the admin copy's extra `&& c.time_slot` test filters the same classes as the other three copies |
| DayView.DayClassesCount | frontend/src/components/dashboard/StudentDashboard.tsx:136-154 | the day's cards list each class of that day whose slot parses exactly as often as the input does, and no other class |
| DayView.DayClassesAt | frontend/src/components/admin/StudentsManagement.tsx:249-264 | each day card comes from an input class of that day whose slot parses to the card's slot |
| DayView.GetClassesByDayGreedy | frontend/src/components/admin/ClassesManagement.tsx:176-194 | the admin day column is the greedy layout of the day's cards |
| DayView.GetClassesByDay | frontend/src/components/admin/StudentsManagement.tsx:249-267 | the other day columns are the position layout of the day's cards |
| DayView.GreedyDayCount | frontend/src/components/admin/ClassesManagement.tsx:176-194 | the admin day column shows each kept class as often as the input lists it, and nothing else |
| DayView.GreedyDayCard | frontend/src/components/admin/ClassesManagement.tsx:176-194 | each card shown is a kept class with its parsed slot and its colour |
| DayView.PositionDayCount | frontend/src/components/dashboard/ParentDashboard.tsx:144-160 | the same count property for the position layout |
| DayView.PositionDayCard | frontend/src/components/dashboard/StudentDashboard.tsx:136-154 | the same card property for the position layout |
| DayView.UnloadedChildShowsNothing | frontend/src/components/dashboard/ParentDashboard.tsx:297 | a child with no entry in the class map gets an empty day |
| PyText.Split | backend/app/services/class_service.py:40 | `str.split(sep)`; `SplitJoin`, `SplitPieces` and `JoinSplit` make it the inverse of joining separator-free parts |
| PyText.SplitJoin | backend/app/services/class_service.py:40 | `str.split(sep)` loses nothing: joining the parts gives back the string |
| PyText.SplitPieces | backend/app/services/class_service.py:40 | the parts do not contain the separator, and there is one more part than separators |
| PyText.JoinSplit | backend/app/services/class_service.py:40 | splitting a join of separator-free parts gives back the parts |
| PyText.Strip | backend/app/services/class_service.py:41 | `str.strip()`; `StripShape` and `StripSurrounded` state what it removes |
| PyText.StripShape | backend/app/services/class_service.py:41 | `strip()` takes off exactly the leading and trailing whitespace |
| PyText.StripSurrounded | backend/app/services/class_service.py:47-48 | stripping whitespace around a text that neither starts nor ends with whitespace gives back that text |
| PyText.Lower | backend/app/services/class_service.py:101 | `lower()` lowers each character in place |
| PyText.UnpackTwoInts | backend/app/services/class_service.py:42 | `a, b = map(int, s.split(":"))`, with the `ValueError` Python raises first; `UnpackIff` states when it succeeds |
| PyText.UnpackIff | backend/app/services/class_service.py:42 | `h, m = map(int, s.split(":"))` succeeds exactly when there is one `:` and both sides are integers |
| PyText.PyInt | backend/app/services/class_service.py:42 | `int()` of a string: optional white space and sign around ASCII digits; `PyIntDigits` gives its value on digit runs |
| PyText.PyIntDigits | backend/app/services/class_service.py:42 | `int()` of a string of ASCII digits is its decimal value |
| SlotValidation.Detail | backend/app/services/class_service.py:55-60 | the detail is the error's own text when it contains "must", otherwise "Invalid time_slot format", followed by the format hint |
| SlotValidation.CheckClock | backend/app/services/class_service.py:41-44 | an accepted time has 0 ≤ h < 24 and 0 ≤ m < 60 |
| SlotValidation.CheckTimeSlot | backend/app/services/class_service.py:36-53 | an accepted slot lies within the day and ends after it starts |
| SlotValidation.ValidateTimeSlot | backend/app/services/class_service.py:34-60 | a missing or empty slot skips validation; otherwise the 400 comes exactly from a rejection, with its detail |
| SlotValidation.ClockAccepted | backend/app/services/class_service.py:41-44 | an accepted time is `hs:ms` with `int(hs)`, `int(ms)` in range, and its minutes are h·60+m |
| SlotValidation.ClockOf | backend/app/services/class_service.py:41-44 | conversely such a time is accepted with those minutes |
| SlotValidation.SlotAccepted | backend/app/services/class_service.py:36-53 | an accepted slot is two dash-free times, accepted once stripped, the end after the start |
| SlotValidation.SlotOf | backend/app/services/class_service.py:36-53 | conversely two such times make an accepted slot |
| SlotValidation.DashRejections | backend/app/services/class_service.py:36-40 | no dash gives the separator error, and two or more give the unpacking error |
| SlotValidation.SlotOfBadStart | backend/app/services/class_service.py:41-44 | a bad start time rejects the slot with that time's error |
| SlotValidation.FrontendSlotsAccepted | backend/app/services/class_service.py:34-53 | a slot the frontend parser reads, with hours and minutes in range and end after start, passes validation with the same minutes |
| SlotValidation.PlainAccepted | backend/app/services/class_service.py:34-53 | `H:M-H:M` with in-range parts and the end after the start is accepted with the expected minutes |
| SlotValidation.ShortMinutesStoredNotShown | backend/app/services/class_service.py:41-44 | one-digit minutes (`"9:5-10:30"`) are stored by the backend but not parsed by the frontend, so such a class never appears on the timetable |
| SlotValidation.FrontendNoMinutes | frontend/src/components/admin/ClassesManagement.tsx:78-89 | the frontend parser needs two minute digits |
| SlotValidation.ClockOutOfRange | backend/app/services/class_service.py:43-44 | an hour of 24 or more is rejected as out of range |
| SlotValidation.LateHoursShownNotStored | backend/app/services/class_service.py:43-44 | a `"25:00-26:00"` slot that the frontend would draw is rejected by the backend with the generic detail |
| SlotValidation.OutOfRangeDetail | backend/app/services/class_service.py:55-56 | the "Invalid time values" error does not contain "must", so its detail is the generic one |
| SlotValidation.OwnMessagesKept | backend/app/services/class_service.py:36-53 | the two messages containing "must" are kept in the detail |
| ClassService.CreateClass | backend/app/services/class_service.py:19-83 | a rejected slot gives its 400 and stores nothing; otherwise exactly the new row is appended with the next id; the keys are kept, and so is the invariant that every stored slot passed validation |
| ClassService.OnDay | backend/app/services/class_service.py:109-111 | the filter keeps only input classes of that day |
| ClassService.ClassesByDay | backend/app/services/class_service.py:85-111 | no filter for a missing or empty day; otherwise accepted exactly when the lowercase day is a weekday name, and a 400 with the list otherwise |
| ClassService.OnDayCount | backend/app/services/class_service.py:109-111 | each class of that day is kept as often as it is stored, and no other class is kept |
| ClassService.AcceptedDay | backend/app/services/class_service.py:100-108 | an accepted day capitalises to the stored weekday name |
| ClassService.DayCaseInsensitive | backend/app/services/class_service.py:101-109 | two days that lower to the same text filter alike |
| ClassService.UpperCaseDay | backend/app/services/class_service.py:101-109 | `"MONDAY"` filters on `"Monday"` |
| ClassService.FrontendOnFiltered | frontend/src/components/admin/ClassesManagement.tsx:176-178 | filtering by day on the server first does not change the frontend's day column |
| ClassService.SlotOrMidnight | backend/app/services/class_service.py:219 | `time_slot or "00:00"` is never empty |
| ClassService.ReadSlot | backend/app/services/class_service.py:219-233 | the minutes the registration check reads from a slot, or none where a `ValueError` escapes; `ReadSplit`, `ReadMissing`, `ReadAccepted` and `ReadValidated` state what it reads |
| ClassService.ReadSplit | backend/app/services/class_service.py:223-228 | a slot with one dash reads as its two stripped times |
| ClassService.ReadAccepted | backend/app/services/class_service.py:217-233 | a slot that passed creation's validation reads to the same minutes |
| ClassService.ReadMissing | backend/app/services/class_service.py:219-233 | a missing or empty slot reads as 00:00 for 90 minutes |
| ClassService.ReadValidated | backend/app/services/class_service.py:217-233 | every slot that creation accepts reads without an error |
| ClassService.SingleTimeLasts90 | backend/app/services/class_service.py:229-233 | a slot without a dash lasts 90 minutes |
| ClassService.ClashIsOverlap | backend/app/services/class_service.py:265-266 | the backend's conflict test is the frontend grouper's strict overlap, in both argument orders |
| ClassService.BackToBackAllowed | backend/app/services/class_service.py:265-266 | a class that starts when the other ends does not clash |
| ClassService.SameDayClasses | backend/app/services/class_service.py:235-243 | the joined rows are the student's registered classes on the target's day |
| ClassService.SameDayComplete | backend/app/services/class_service.py:235-243 | every class of that day the student is registered for is among them |
| ClassService.FirstConflict | backend/app/services/class_service.py:245-274 | a reported conflict is a registered class whose slot reads and clashes with the target |
| ClassService.ClearIff | backend/app/services/class_service.py:245-274 | the loop finishes without a conflict exactly when every slot reads and none clashes |
| ClassService.ReadableScan | backend/app/services/class_service.py:250-261 | with every slot readable the loop never fails on one |
| ClassService.Capacity | backend/app/services/class_service.py:195 | `max_students or 999`: a missing or zero limit is 999 |
| ClassService.AdmissionWith | backend/app/services/class_service.py:160-293 | the admission checks in source order with the subscription query's outcome given; a success registers exactly this student in this class; `Admission` and `AdmissionAsWritten` differ only in that outcome |
| ClassService.Admission | backend/app/services/class_service.py:160-293 | the checks in source order; a success registers exactly this pair |
| ClassService.AdmittedIff | backend/app/services/class_service.py:160-293 | admitted exactly when the class exists, the student exists, the pair is new, the class has room, a package has a session left, the slot reads and no same-day class clashes |
| ClassService.NotFoundCases | backend/app/services/class_service.py:160-174 | a missing class gives 404 "Class not found" before anything else; then a missing student gives 404 "Student not found" |
| ClassService.ConflictDetail | backend/app/services/class_service.py:267-270 | the conflict message naming the class, the day and its slot; `ConflictNamesClash` states when it is the answer |
| ClassService.ConflictNamesClash | backend/app/services/class_service.py:264-274 | once checks 1–5 pass, a clash gives a 400 naming the first clashing class, the day and its slot |
| ClassService.FullClassRefused | backend/app/services/class_service.py:190-200 | once checks 1–3 pass, a class with as many registrations as its capacity refuses with "Class is full" |
| ClassService.AdmissionKeepsPairsUnique | backend/app/services/class_service.py:176-188 | an admission never creates a duplicate pair |
| ClassService.NoServerErrorOnValidatedSlots | backend/app/services/class_service.py:217-261 | when every stored slot passed creation's validation, registration never ends in an uncaught error |
| ClassService.RegisterStudentToClass | backend/app/services/class_service.py:144-293 | the checks and the early-exit conflict loop return `Admission` on the old state; a success appends exactly that registration, nothing else changes, and the keys and the unique pairs are kept |
| ClassService.AdmissionAsWritten | backend/app/services/class_service.py:202-215 | the checks with the subscription query as written |
| ClassService.AsWrittenNeverAdmits | backend/app/services/class_service.py:206 | as written, no registration ever succeeds, and one that passes checks 1–4 is refused for want of a subscription |
| ClassService.CorrectedAdmits | backend/app/services/class_service.py:202-215 | for an admissible student the intended filter admits, while the written one refuses |
| SubscriptionModel.RemainingSessions | backend/app/models/subscription.py:51-54 | remaining = total − used |
| SubscriptionModel.IsActive | backend/app/models/subscription.py:56-59 | `is_active` as `remaining_sessions > 0`; `ActiveIffSessionsLeft` relates it to used and total |
| SubscriptionModel.ActiveIffSessionsLeft | backend/app/models/subscription.py:56-59 | active ⇔ remaining > 0 ⇔ used < total, and remaining + used = total |
| SubscriptionModel.NewSubscription | backend/app/services/subscription_service.py:54-62 | a new package keeps the given student, name, dates and total, and starts with no sessions used |
| SubscriptionModel.FreshSubscription | backend/app/models/subscription.py:41-42 | a new package with at least one session has remaining = total and is active |
| SubscriptionModel.UseOne | backend/app/services/subscription_service.py:122 | using a session adds exactly one to the used count and changes nothing else |
| SubscriptionModel.UseOneAccounting | backend/app/models/subscription.py:52-59 | one use lowers remaining by one; a package turns inactive exactly when used reaches total; remaining stays ≥ 0 for an active package |
| SubscriptionService.CreateCheck | backend/app/services/subscription_service.py:31-51 | the three creation checks in order; `CreateCheckIff` states exactly when each fires |
| SubscriptionService.CreateCheckIff | backend/app/services/subscription_service.py:31-51 | creation passes exactly for a known student, end after start and at least one session; an unknown student is the first error, and the session error only comes after the other two checks pass |
| SubscriptionService.CreateOutcome | backend/app/services/subscription_service.py:31-67 | the intended creation: the checks, then the new package with the next id |
| SubscriptionService.CreatedIsFresh | backend/app/services/subscription_service.py:53-61 | a created package has the next id, no used sessions, the given fields, remaining = total, and is active |
| SubscriptionService.CreateOutcomeAsWritten | backend/app/services/subscription_service.py:53-75 | creation as written, with `is_active=True` passed to the constructor |
| SubscriptionService.CreateAsWrittenFails | backend/app/services/subscription_service.py:61 | as written, no creation succeeds; the intended one succeeds exactly when the checks pass |
| SubscriptionService.CreateSubscription | backend/app/services/subscription_service.py:17-75 | returns `CreateOutcome` on the old state; a success appends the package and advances the id; the keys and the within-package rule are kept |
| SubscriptionService.UseCheck | backend/app/services/subscription_service.py:99-118 | the checks on a found package in order; `UseCheckIff`, `NoneRemainingUnreachable` and `LastDayUsable` state when each fires |
| SubscriptionService.UseCheckIff | backend/app/services/subscription_service.py:99-118 | a use passes exactly for an active package whose end date is missing or not before today; "not active" is exactly used ≥ total |
| SubscriptionService.NoneRemainingUnreachable | backend/app/services/subscription_service.py:105-109 | the "No sessions remaining" check never fires, because inactivity is checked first |
| SubscriptionService.LastDayUsable | backend/app/services/subscription_service.py:113-114 | an active package can still be used on its end date |
| SubscriptionService.UseOutcome | backend/app/services/subscription_service.py:91-131 | the intended use: 404 for an unknown id, the checks, then one more session used; `UseAccounting` and `UseKeepsWithinPackage` state the result |
| SubscriptionService.UseAccounting | backend/app/services/subscription_service.py:91-126 | a successful use is of the first package with that id, adds one used session and keeps everything else, remaining ≥ 0, and inactive exactly when the last session went |
| SubscriptionService.UseKeepsWithinPackage | backend/app/services/subscription_service.py:122 | never more sessions used than bought |
| SubscriptionService.UseSubscriptionSession | backend/app/services/subscription_service.py:77-138 | returns `UseOutcome` on the old state; a success replaces exactly that package; the invariants are kept |
| SubscriptionService.UseOutcomeAsWritten | backend/app/services/subscription_service.py:122-138 | the use as written, where setting `is_active` on the last session fails with 500; `LastSessionLostAsWritten` compares it with `UseOutcome` |
| SubscriptionService.LastSessionLostAsWritten | backend/app/services/subscription_service.py:125-126 | as written, using the last session fails with 500 and records nothing; every other outcome agrees with the intended one |
| SubscriptionService.Remove | backend/app/services/subscription_service.py:199 | deleting row i keeps the rows before it and shifts the rows after it |
| SubscriptionService.RemoveCount | backend/app/services/subscription_service.py:199 | exactly one copy of the row is removed |
| SubscriptionService.RemoveKeepsKeys | backend/app/services/subscription_service.py:199 | the remaining keys stay distinct |
| SubscriptionService.RemoveById | backend/app/services/subscription_service.py:191-200 | the package with that id is gone and every other package is still there |
| SubscriptionService.DeleteSubscription | backend/app/services/subscription_service.py:180-200 | 404 for an unknown id; otherwise exactly that package is removed and nothing else changes |
| Db.ClassIndex | backend/app/services/class_service.py:161 | `.first()` by id: the first row with that id, or none exactly when no row has it |
| Db.SubscriptionIndex | backend/app/services/subscription_service.py:91 | the same for subscriptions |
| Db.Enrolled | backend/app/services/class_service.py:191-193 | the head count of a class, which never exceeds the number of registrations; `EnrolledCounts` and `EnrolledAppend` state what it counts |
| Db.EnrolledCounts | backend/app/services/class_service.py:191-193 | the head count is the number of registrations that name the class |
| Db.EnrolledAppend | backend/app/services/class_service.py:278-282 | one more registration adds one to its class's count only |
| Db.AddPairKeepsUnique | backend/app/models/class_registration.py:30-32 | appending a pair not yet stored keeps the `(student_id, class_id)` pairs unique |
| Db.Database.constructor | backend/app/models/class_model.py:29 | the starting state: empty tables but for the students, with the autoincrement keys (class_model.py:29, subscription.py:32, class_registration.py:34) starting at 1; it satisfies `Valid()` and `SessionsKept()` |

## Left out

The model does not cover the following:
- **Databases and frameworks.**
  - Database sessions (`add`, `commit`, `rollback`, `refresh`) and the HTTP layer are not modelled. Each query is a function over the stored rows.
  - Rows come back in insertion order.
  - Primary keys come from a counter.
  - The `IntegrityError` branches are not modelled, since the checks before them already exclude a duplicate pair.
- **Rendering.** React rendering, hooks, state, tooltips and hover effects (opacity, transform, z-index) are not modelled, nor is the formatting of `hsl(...)`, `px` and `%` strings. A colour is an (h, s, l) triple, and a style is four numbers.
- **Numbers.**
  - JavaScript floating point is not modelled; the geometry is exact over `real`.
  - The `hash` variable is a float in JavaScript. It is modelled as an integer. `SubjectColor.HashBound` shows it stays exact for any realistic subject length.
- **Python `int()`.** `int()` accepts underscores between digits and non-ASCII digits; the model accepts only ASCII digits, surrounding whitespace and a sign. `str.lower` and `str.capitalize` only change ASCII letters in the model. Both gaps change nothing for the weekday names.
- **Error texts.**
  - `repr()` in Python's `int()` error text is modelled as plain quoting, without escapes.
  - The wording of the `AttributeError` on a property without a setter differs between Python versions; the model uses the current one.
- **Time.** `date.today()` is a parameter, and dates are day numbers.
- SlotValidation.CheckTimeSlot: the second, identical reading of the two parts after the range check is not modelled. It cannot fail once the first reading succeeded.
- **`is_active` is derived.** It is never a stored flag. The three places the services treat it as a column or assign to it are the findings below. The corrected members read it as `total > used`, which is the filter's own second condition.
- **Schemas.** The request schemas are not modelled; the services' own checks are. `SubscriptionCreate` allows end date = start date, and the service then rejects it with 400.
- **Missing operation.** `update_subscription`, which the subscriptions router calls, does not exist in the service, so there is nothing to model.
- **Seed data.** `seed_data.py` is not part of this model. Its slots do not go through creation's validation.
- **Other parts of the application.** These are left out: authentication and hashing (foreign calls), configuration, routers, the other services (plain create, read, update and delete), the parent and subscription admin screens, the modals, and the other pages.

## Findings

| source | as written | input that shows it | evidently intended | confidence | as-written member | corrected member |
|---|---|---|---|---|---|---|
| backend/app/services/class_service.py:206 | `Subscription.is_active == True` compares a Python property object with `True`. That is the constant `False`, so the subscription query matches no row. | An existing student with a package of 10 sessions, 0 used, registering for an existing class with room that they are not in: refused with "Student has no active subscription with available sessions". | The filter `total_sessions > used_sessions` alone decides. | not executed; high | ClassService.AsWrittenNeverAdmits | ClassService.AdmittedIff |
| backend/app/services/subscription_service.py:61 | `Subscription(..., is_active=True)` assigns to a property that has no setter. The `AttributeError` is not caught, since only `IntegrityError` is, so the framework answers 500. | An existing student, start date 2024-01-01, end date 2024-02-01, 10 sessions: 500 instead of the new package. | The package is created with no sessions used, and is active because total > 0. | not executed; high | SubscriptionService.CreateAsWrittenFails | SubscriptionService.CreatedIsFresh |
| backend/app/services/subscription_service.py:125-126 | After the last session is used, `subscription.is_active = False` raises `AttributeError`. `except Exception` rolls the increment back and answers 500. | A package with 1 session, 0 used, no end date: the use fails with 500 "Failed to update subscription: ...", and the session stays unused. | The use is recorded, and the package is inactive because remaining = 0. | not executed; high | SubscriptionService.LastSessionLostAsWritten | SubscriptionService.UseAccounting |
