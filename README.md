# go-timechart core, modelled in Dafny

go-timechart draws one day of schedules as a 74-character line of
box-drawing characters. There are two halves of twelve hours. Each hour is
three characters: two half-hour slots and an hour mark. Each half starts and
ends with an edge. Busy half hours are drawn heavy, and the current hour can
be marked with a heavy vertical stroke ("now").

The model has four modules:

- `Times` (times.dfy) stands in for Go's `time.Time`. A time is a day of the
  month plus the seconds since that day's midnight. It provides hour,
  minute, rounding to the nearest hour, and an absolute `Instant` used to
  state orderings.
- `Schedules` (schedule.dfy) covers schedule.go:
  - the time comparisons;
  - `Contains`, `IsOverlapped` and `Overlap`;
  - the merger `OverlapSchedules`, written as the imperative loop the source
    has and proved equal to a recursive specification `Merged`.
- `Chars` (char.dfy) covers char.go:
  - `UnicodeChar` as a value, with its builder-style setters;
  - the three glyph tables;
  - `Chars.String` and `Chars.Repeat` (both loops in the source, so both
    are methods here).
  
  The glyph tables are checked against an independent reference. `ArmsOf`
  reads each glyph's four arms (absent, light or heavy) off its Unicode
  name. `Look` says which arms a character should show: a heavy vertical
  stroke for "now", and heavy horizontal arms on the filled side(s).
- `Formatter` (format.dfy) covers format.go:
  - the empty template;
  - `timeToIndex` and `pickRange`;
  - `fill`, modelled as nested loops over a sequence;
  - `Format` and `FormatWithTime`, the latter as written and, separately,
    with the corrected "now" index (see Findings).
  
  Each is proved against a pointwise specification. `Template` gives the
  layout. `Painted` gives each position's flags after painting, independent
  of the order of the ranges. `Concat` is the rendered string.

One might expect the merged schedules not to overlap. The code does not
guarantee that, and the model follows the code:
`Schedules.MergedNotAlwaysDisjoint` exhibits an input whose merged output
still has two overlapping schedules. The code folds every later schedule
into the first one only, and never re-checks the ones it set aside.

## Model

| member | source | states |
|---|---|---|
| Times.Hour | format.go:35 | Go's `t.Hour()`: the hour of the day, 0 to 23 |
| Times.Minute | format.go:35 | Go's `t.Minute()`: the minute within the hour, 0 to 59 |
| Times.ClockReading | format.go:35 | hour, minute and the leftover seconds add back up to the time of day, so each is the clock's reading |
| Times.RoundHour | format.go:31 | Go's `Round(time.Hour)`: the result is on a whole hour, within half an hour of `t`, with halves rounding up |
| Schedules.TimeGT | schedule.go:94-97 | "t1 is after t2" is exactly "t1's instant is larger" |
| Schedules.TimeLT | schedule.go:104-107 | "t1 is before t2" is exactly "t1's instant is smaller" |
| Schedules.TimeGTE | schedule.go:99-102 | later-or-equal is "instant not smaller", the negation of before |
| Schedules.TimeLTE | schedule.go:109-112 | earlier-or-equal is "instant not larger", the negation of after |
| Schedules.Contains | schedule.go:62-67 | `t` lies in the schedule with both ends included |
| Schedules.IsOverlapped | schedule.go:17-30 | for well-formed schedules the four cases amount to `max(starts) <= min(ends)` |
| Schedules.OverlappedIffSharedInstant | schedule.go:17-30 | on well-formed schedules, overlapped iff some instant lies in both |
| Schedules.OverlappedSymmetric | schedule.go:17-30 | the overlap test does not depend on which schedule is the receiver |
| Schedules.TouchingOverlaps | schedule.go:17-60 | schedules that only share an end point overlap, and combine into one from the first start to the second end |
| Schedules.Overlap | schedule.go:32-60 | a non-overlapping pair returns the receiver; an overlapping well-formed pair gives the earliest start to the latest end, which is well formed and covers both |
| Schedules.OverlapSymmetric | schedule.go:32-60 | the combined schedule is the same whichever one is the receiver |
| Schedules.FirstOverlapping | schedule.go:80-86 | the search position is the first schedule that overlaps `x`, or the end when none does |
| Schedules.Absorb | schedule.go:79-86 | the inner loop widens exactly the first overlapping schedule and reports whether it found one; with none found nothing changes |
| Schedules.SearchSingle | schedule.go:76-86 | with only the first schedule to search, it is found exactly when it overlaps |
| Schedules.MergeOne | schedule.go:79-89 | one outer iteration on the k-th later schedule carries the sweep over the first k to the sweep over the first k + 1: absorb into the first schedule, or set aside |
| Schedules.SweepSnoc | schedule.go:78-90 | one more later schedule is one more step of the sweep |
| Schedules.SweepPrefix | schedule.go:78-90 | the sweep over a prefix one longer is one more step |
| Schedules.OverlapSchedules | schedule.go:69-92 | the loop with its inner search and `break` returns exactly `Merged(ss)`: the first schedule widened by every later one that overlaps it, then the others in their original order |
| Schedules.SweepStashBound | schedule.go:76-91 | the set-aside list is never longer than the schedules after the first |
| Schedules.MergedLength | schedule.go:71-91 | the output is no longer than the input, and is empty exactly when the input is |
| Schedules.StepProperties | schedule.go:80-89 | one iteration on well-formed schedules: the widened schedule stays well formed and only grows; a schedule is either covered by it, or set aside because it does not overlap |
| Schedules.SweepAccStash | schedule.go:78-90 | on well-formed input the widened first schedule stays well formed and covers the first; set-aside schedules come from the input, are well formed and do not overlap the first |
| Schedules.SweepCovers | schedule.go:78-90 | on well-formed input every later schedule is covered by the widened first schedule or set aside |
| Schedules.MergedProperties | schedule.go:71-91 | on well-formed input every output is well formed; every input schedule is covered by the first output or appears among the rest; each later schedule that overlapped the widened first schedule when the loop reached it is covered by the first output; the rest are a sub-multiset of the input after the first |
| Schedules.SweepAbsorbedCovered | schedule.go:80-86 | a later schedule that overlapped the widened first schedule when reached is covered by the final one, whatever equal schedules were set aside elsewhere |
| Schedules.MergedAbsorbedCovered | schedule.go:71-91 | each later input schedule that overlapped the widened first schedule when the loop reached it is covered by the first output |
| Schedules.SweepAccWellFormed | schedule.go:80-86 | on well-formed input the widened first schedule stays well formed |
| Schedules.CoversTransitive | schedule.go:62-67 | a schedule covering one that covers a third covers the third |
| Schedules.PositionsOfStep | schedule.go:79-89 | listed positions of the schedules set aside stay valid as the loop moves on, and the newly set-aside one is listed last |
| Schedules.SetAsideMembersStep | schedule.go:79-89 | one more iteration extends "set aside exactly when not overlapping the widened first schedule" by one position |
| Schedules.SweepStashInOrder | schedule.go:76-91 | the set-aside list is, in input order, exactly the later schedules that did not overlap the widened first schedule when the loop reached them |
| Schedules.TouchingPairOrderInsensitive | schedule_test.go:27-45 | two schedules that touch merge into the same single schedule in either order |
| Schedules.MergedNotAlwaysDisjoint | schedule.go:78-91 | [1:00-2:00, 5:00-6:00, 2:00-5:00] merges into [1:00-5:00, 5:00-6:00], which still overlap |
| Schedules.MergedSingle | schedule_test.go:18-25 | a single schedule is returned as it is |
| Schedules.MergedOverlappedExample | schedule_test.go:47-56 | 16-19, 12-17 and 13-14 merge into 12-19 |
| Schedules.MergedApartExample | schedule_test.go:58-67 | 12-15 and 16-19 are both kept, in order |
| Schedules.MergedContainedExample | schedule_test.go:69-78 | schedules inside the first leave it as it is |
| Chars.NewUnicodeChar | char.go:38-40 | the zero value: no role and no flag, so it renders as nothing |
| Chars.Start | char.go:42-45 | sets the start flag and changes nothing else |
| Chars.End | char.go:47-50 | sets the end flag and changes nothing else |
| Chars.Fill | char.go:52-55 | sets the "in" flag and changes nothing else |
| Chars.Now | char.go:57-60 | sets the now flag and changes nothing else |
| Chars.Hour | char.go:62-65 | makes the character an hour mark and keeps every flag |
| Chars.Edge | char.go:67-70 | makes the character an edge and keeps every flag |
| Chars.Slot | char.go:72-75 | makes the character a slot and keeps every flag |
| Chars.FlagSettersIdempotentAndCommute | char.go:42-60 | setting a flag twice is setting it once, and flag setters commute |
| Chars.HourGlyph | char.go:90-109 | the first-match table picks the glyph whose arms are the hour mark's intended look |
| Chars.EdgeGlyph | char.go:111-130 | the same for edges: a start edge opens to the right, an end edge to the left |
| Chars.SlotGlyph | char.go:132-139 | a slot is heavy exactly when filled |
| Chars.Glyph | char.go:77-88 | every character with a role renders as the glyph of its intended look |
| Chars.Render | char.go:77-88 | the rendering is empty exactly for a character without a role, and otherwise one glyph showing its look |
| Chars.RenderShowsLook | char.go:77-139 | two characters render alike exactly when they should look alike |
| Chars.LookDeterminesGlyph | char.go:77-139 | characters meant to look alike get the same glyph |
| Chars.ArmsOfInjective | char.go:90-139 | no two glyphs in the tables have the same arms, so the look can be read back from the glyph |
| Chars.RepeatedAt | char.go:151-160 | n copies of cc are n times as long as cc, and element i is element (i mod the length of cc) of cc; nothing when n <= 0 |
| Chars.Repeat | char.go:151-160 | the append loop returns n copies of cc, as `RepeatedAt` describes |
| Chars.JoinRendered | char.go:143-149 | joining the renderings with an empty separator is their concatenation |
| Chars.RenderAll | char.go:143-149 | the slice-and-join loop returns the concatenated renderings |
| Chars.ConcatGlyphs | char.go:143-149 | when every character has a role, the string has one glyph per character, each its character's glyph |
| Formatter.HalfDayLayout | format.go:64-74 | a starting edge, eleven [slot, slot, hour] and a final [slot, slot, end edge] make 37 characters laid out as `LayoutAt` says |
| Formatter.TwoHalvesTemplate | format.go:75 | two copies of a correctly laid-out half are the whole template |
| Formatter.Empty | format.go:64-76 | the appended and repeated template is exactly the 74-position layout |
| Formatter.TimeToIndex | format.go:87-103 | the index is within the template; it is the template's length exactly after the first day, and 0 exactly at the first midnight |
| Formatter.TimeToIndexMonotone | format.go:87-103 | later times never get smaller indices |
| Formatter.TimeToIndexOnHour | format.go:96-101 | at whole hour h of the first day the index is 3h + 1, plus one in the afternoon |
| Formatter.OnHourCloses | format.go:87-103 | on a whole hour the character before the index is that hour's mark, or the morning's end edge at noon |
| Formatter.HalfPastCloses | format.go:87-103 | at half past, the character before the index is a slot |
| Formatter.TimeToIndexClosesHalfHour | format.go:87-103 | at a whole half hour, the character before the index closes it: a slot at half past, an hour mark on the hour, the end edge at noon |
| Formatter.TimeToIndexExamples | format_test.go:202-264 | 0:00, 0:30, 1:00, 1:30, 2:00, 5:30, 12:00, 12:30 and 24:00 map to 0, 2, 4, 5, 7, 17, 37, 39 and 74 |
| Formatter.PickRange | format.go:78-85 | for a schedule that does not end before it starts, the range lies inside the template |
| Formatter.PickRangeStartsOnMark | format.go:78-85 | a range starting on an interior whole hour begins on that hour's mark; one starting at midnight or noon begins on that half's start edge |
| Formatter.WholeHourIndex | format.go:80-82 | an interior whole hour's index is just past its hour mark, which is why pickRange steps back one |
| Formatter.PickRangeMorningExamples | format_test.go:272-301 | the expected ranges 0:30-5:30, 0:00-0:30, 0:30-1:00, 2:00-4:00 and 2:00-2:30 |
| Formatter.PickRangeAfternoonExamples | format_test.go:302-325 | the expected ranges 13:00-13:30, 11:30-12:30, 12:00-13:00 and 23:30-24:00 |
| Formatter.WellFormedPaintable | format.go:48-50 | the ranges of merged well-formed schedules always slice inside the template, so fill never panics on them |
| Formatter.StartsAtExtend | format.go:50-53 | one more range starts at p exactly when the earlier ones do or it does |
| Formatter.EndsAtExtend | format.go:54-56 | one more range ends at p exactly when the earlier ones do or it does |
| Formatter.CoveredAtExtend | format.go:50-58 | one more range covers p exactly when the earlier ones do or it does |
| Formatter.PaintExtend | format.go:50-59 | painting one more range onto a position is one step of fill's inner loop |
| Formatter.Painted | format.go:42-62 | painting keeps the template's length and every position's role, so every position still renders |
| Formatter.PaintRange | format.go:50-59 | the inner loop paints one range: start on its first position, end on its last, filled throughout, nothing outside it |
| Formatter.Fill | format.go:42-62 | the nested loops produce `Filled(ss)`: each position of the template with start where a merged range begins, end where one ends, and "in" where one covers it |
| Formatter.PaintedProperties | format.go:42-62 | painting keeps every role, never clears a flag, fills exactly the covered positions and leaves the others as the template has them |
| Formatter.PaintedOrderFree | format.go:48-60 | the painted result depends only on which ranges there are, not on their order or repetition |
| Formatter.SameRangesSameFlags | format.go:48-60 | ranges contained in another list set no flag that list does not |
| Formatter.FilledEmpty | format.go:43-46 | no schedules give the empty template |
| Formatter.PaintedRoles | format.go:42-62 | every painted position keeps a role, so each renders as a glyph |
| Formatter.PaintedSingle | format.go:50-59 | a single range paints each position as one step of fill's loop |
| Formatter.FilledSingle | format.go:48-49 | a single schedule is painted over its own range |
| Formatter.BareHalfLine | format_test.go:20 | one half of the expected empty line, glyph by glyph |
| Formatter.BareGlyphs | format.go:64-76 | each of those glyphs is the table's glyph for the template's character at that offset |
| Formatter.TemplateRendered | format.go:64-76 | the bare template renders as two copies of one half's line |
| Formatter.EmptyRendered | format_test.go:17-21 | with no schedules the rendered line is exactly the repository's expected empty line |
| Formatter.FilledHoursExample | format_test.go:38-43 | 16:00-19:00 paints positions 49 to 58 |
| Formatter.PaintedHoursExample | format_test.go:38-43 | those positions render from ┾ at the 16 o'clock mark to ┽ at the 19 o'clock mark, with ─ on either side |
| Formatter.Format | format.go:21-23 | the output is the rendered filled template: 74 glyphs, glyph p showing position p |
| Formatter.NowIndexAsWritten | format.go:29-37 | the source's now index lies between 0 and the template's length, and on the first day strictly inside the template |
| Formatter.NowIndex | format.go:29-37 | the corrected now index: on the first day it is the mark of the hour `t` rounds to, in the half `t` is in, and always inside the template |
| Formatter.HourMarkNotSlot | format.go:64-76 | every hour's mark position is inside the template and holds an hour mark or an edge |
| Formatter.NowIndexOnMark | format.go:29-37 | on the first day the now marker sits on an hour mark or an edge, never a slot |
| Formatter.NowIndexMonotone | format.go:29-37 | on the first day the marker never moves backwards as time goes on |
| Formatter.NowIndexAgrees | format.go:29-37 | the corrected and the written index agree everywhere except 12:30 to 12:59 |
| Formatter.NowIndexAsWrittenMissesMark | format.go:35-37 | as written, 12:30 marks position 41, a slot that draws the same with or without "now"; the corrected index marks the 13 o'clock mark |
| Formatter.NowIndexAsWrittenGoesBack | format.go:35-37 | as written, the marker at 12:59 lies after the one at 13:00 |
| Formatter.NowIndexMorningExamples | format_test.go:93-128 | 0:00, 5:00, 5:30 and 9:30 mark positions 0, 15, 18 and 30 |
| Formatter.NowIndexNoonExamples | format_test.go:129-155 | 12:00, 12:01 and 13:00 mark positions 36, 37 and 40 |
| Formatter.NowIndexEveningExamples | format_test.go:156-189 | 16:00, 19:00, 23:59 and the next midnight mark positions 49, 58, 73 and 73 |
| Formatter.RenderWithNow | format.go:30-39 | fill, add the now flag at one position, render: the output is Format's with exactly that position changed, showing its glyph with the now flag added |
| Formatter.FormatWithTime | format.go:29-40 | as written: the output is Format's with exactly one position changed, the source's now index, which shows its glyph with the now flag added |
| Formatter.FormatWithTimeIntended | format.go:29-40 | the same with the corrected now index, which on the first day always lands on an hour mark or an edge |
| Formatter.NowIndexAsWrittenLaterDay | format.go:31-38 | as written, 12:45 on a later day rounds to that day's 13:00 and gets index 74, one past the template; the corrected index is 73 |

## Left out

- `FormatNow` (format.go:25-27) reads the wall clock. The model takes the time as a parameter of `FormatWithTime` instead.
- The `Formatter` and `Char` interfaces, and the charset factory `fn` of `HalfHourIncrementFormatter`, are left out. The model fixes the only charset the repository has, `UnicodeChar`.
- `Schedule.String` and its clock formatting are left out. They are only for display.
- Time zones, sub-second precision, months and years are left out. A time is a day of the month and whole seconds of that day. `RoundHour` assumes whole-hour zone offsets.
- Times.RoundHour: carries 23:30 and later to day `t.day + 1` and never wraps to the next month. On a month's last day, Go's `Round(time.Hour)` gives the 1st of the next month, whose `Day()` is 1, so `timeToIndex` returns 0 and the source puts "now" on position 0. The model instead puts it on position 73 (for example 23:40 on the 31st, `Time(31, 85200)`).
- Go's string rendering is modelled as characters. Strings are sequences of code points, not UTF-8 bytes.
- Schedules.OverlapSchedules: the result is a fresh sequence. In the source, appending to `ss[:1]` writes the set-aside schedules into the caller's slice, and `exists[i] = …` overwrites `ss[0]`. That aliasing is not modelled.
- Formatter.Fill: the template is a sequence reassigned position by position, not a slice shared by reference. The source's slice aliasing is therefore not modelled.
- Formatter.Fill: `requires Paintable(ss)` stands for Go's panic when a range falls outside the template. `WellFormedPaintable` shows that well-formed schedules always meet it.
- Formatter.Format: inherits Fill's `requires Paintable(ss)`, which stands for the source's panic on a range outside the template.
- Formatter.FormatWithTime: `requires NowIndexAsWritten(t) < 74` stands for the source's out-of-range panic. As written that happens on a later day between 12:01 and 12:59.
- Formatter.FormatWithTimeIntended: `requires NowIndex(t) < 74` stands for the same panic, which with the corrected index happens on a later day between 12:01 and 12:29.

## Findings

| source | as written | input that shows it | evidently intended | confidence | as-written member | corrected member |
|---|---|---|---|---|---|---|
| format.go:35-37 | after rounding to the hour, the index moves forward one whenever the clock reads 12 with a non-zero minute | 12:30 rounds to 13:00, whose index already lies past noon. The extra step puts "now" on slot 41, where it draws nothing different. 12:59 is marked after 13:00 | the step applies only from 12:01 to 12:29, which round to noon itself. It moves "now" from the morning's end edge to the afternoon's start edge | medium (not executed) | Formatter.NowIndexAsWritten, Formatter.FormatWithTime, Formatter.NowIndexAsWrittenMissesMark, Formatter.NowIndexAsWrittenGoesBack | Formatter.NowIndex, Formatter.FormatWithTimeIntended, Formatter.NowIndexOnMark |
