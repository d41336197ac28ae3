# learning-tracker utilities in Dafny

A Dafny model of the helper library `src/lib/utils.ts` of the learning
tracker, the only part of the application with behaviour of its own:

- **formatDuration**: a number of minutes shown as `"Nm"`, `"Hh"` or
  `"Hh Mm"` (module `Duration`). The integer rendering it uses is module
  `Decimal`. Its partner is `ParseDuration`, a strict reader of exactly the
  strings the formatter can print. The two are proved to be inverse in both
  directions. So every output encodes its minutes as `h*60 + r`, with the
  shown remainder `r` between 1 and 59.
- **calculateProgress**: a guarded, rounded percentage (module `Progress`).
  `Math.round` is modelled exactly on rationals as "round half up". The
  result is characterised by the inequality that defines rounding, and it
  is proved bounded, monotone and complete.
- **getDifficultyColor, getResourceTypeIcon, getStatusColor**: the three
  total lookup tables (module `Badges`). Each contract says which value each
  listed key gets and which keys reach the default.
- **calculateStudyStreak**: the study streak (module `Streak`). It is an
  imperative method over an `array` of sessions. It sorts the array newest
  first in place, then walks it with a day cursor and stops at the first gap.
  It is proved to return `StudyStreak`, the largest `k` such that each of the
  days today, today−1, …, today−(k−1) holds a session. It is also proved to
  leave the array sorted and a permutation of its input.
- **generateStudyPlan**: the plan stub (module `StudyPlan`). It returns the
  target minutes and empty lists, whatever modules it is given.

Numbers are Dafny integers. Timestamps are milliseconds since the epoch, and
a day is the timestamp divided by 86 400 000, rounded down. The clock
(`new Date()`) is a parameter, `now`.

## Model

| member | source | states |
|---|---|---|
| Decimal.NatToString | src/lib/utils.ts:10 | the rendering `${n}` of a natural number up to Number.MAX_SAFE_INTEGER (2^53 - 1) is a non-empty digit string without leading zeros, starting with '0' only for 0 |
| Decimal.IntToString | src/lib/utils.ts:10 | a negative number renders as '-' followed by canonical digits whose value is its magnitude, any other number as canonical digits whose value is the number |
| Decimal.ParseNatToString | src/lib/utils.ts:10 | reading the rendering of n back as a decimal number gives n |
| Decimal.NatToStringParse | src/lib/utils.ts:10 | every canonical digit string is the rendering of its value, so renderings and canonical strings are in bijection |
| Duration.FormatDuration | src/lib/utils.ts:8-18 | the text ends in "h" exactly for a whole number of hours of at least one, in "m" otherwise, and shows an hours field exactly from 60 minutes on |
| Duration.FormatThenParseBelowHour | src/lib/utils.ts:9-11 | below 60 minutes, including negative values, the output reads back through ParseDuration as m, and ParseDuration accepts there only "<digits>m" (value below 60) and "-<digits>m" |
| Duration.FormatThenParseWholeHours | src/lib/utils.ts:12-15 | a whole number h >= 1 of hours reads back through ParseDuration as m, and ParseDuration returns h*60 only for the form "<h>h" |
| Duration.FormatThenParseHoursMinutes | src/lib/utils.ts:12-17 | otherwise the output reads back through ParseDuration as m, and ParseDuration returns h*60 + r only for the form "<h>h <r>m" with h >= 1 and 1 <= r <= 59 |
| Duration.FormatThenParse | src/lib/utils.ts:8-18 | every output of formatDuration reads back as the minutes it was made from |
| Duration.ParseThenFormat | src/lib/utils.ts:8-18 | every string of the forms "Nm" (N < 60), "Hh", "Hh Mm" (1 <= M <= 59) is the output of formatDuration for its value |
| Duration.FormatDurationInjective | src/lib/utils.ts:8-18 | distinct minute counts are never shown as the same string |
| Progress.RoundHalfUp | src/lib/utils.ts:42 | Math.round of num/den is the integer r with r - 1/2 <= num/den < r + 1/2, for either sign of den |
| Progress.CalculateProgress | src/lib/utils.ts:40-43 | a total of 0 gives 0; for any other total, positive or negative, the result r satisfies r - 1/2 <= 100*completed/total < r + 1/2 |
| Progress.RoundingIsUnique | src/lib/utils.ts:42 | the rounding inequality has only one integer solution, so it defines the percentage |
| Progress.ProgressInRange | src/lib/utils.ts:42 | for 0 <= completed <= total and total > 0 the percentage lies in [0, 100] |
| Progress.ProgressMonotone | src/lib/utils.ts:42 | for a fixed positive total, more completed never gives a lower percentage |
| Progress.ProgressComplete | src/lib/utils.ts:41-42 | completed == total (non-zero) gives exactly 100 |
| Badges.DifficultyColor | src/lib/utils.ts:45-56 | beginner, intermediate and advanced each get their own colour; an undefined or unlisted difficulty gets gray, and only those do |
| Badges.ResourceTypeIcon | src/lib/utils.ts:58-75 | video, podcast, book, paper and interactive each get their own icon, and only they do; the document icon is returned for "article" and for every unlisted type, and for nothing else |
| Badges.StatusColor | src/lib/utils.ts:77-91 | completed and mastered share green; in_progress is blue; skipped is red; not_started and every unlisted status are gray |
| Streak.DayOfMonotone | src/lib/utils.ts:103-107 | truncating timestamps to midnight keeps their order |
| Streak.StreakEndingAt | src/lib/utils.ts:105-115 | the run of consecutive session days ending at a day is no longer than the number of session days up to it |
| Streak.DaysBound | src/lib/utils.ts:105-115 | there are no more distinct session days than sessions |
| Streak.StreakBound | src/lib/utils.ts:101-117 | the streak is between 0 and the number of sessions |
| Streak.StreakCovers | src/lib/utils.ts:109-114 | every day of the run holds a session and the day before the run does not |
| Streak.StreakUnique | src/lib/utils.ts:109-114 | a run of k covered days followed by an uncovered day is exactly the streak |
| Streak.StreakCharacterization | src/lib/utils.ts:101-117 | the streak equals k if and only if today, …, today-(k-1) all hold a session and today-k does not |
| Streak.StreakLooksBackOnly | src/lib/utils.ts:109-114 | the streak depends only on the session days up to today |
| Streak.FutureSessionIgnored | src/lib/utils.ts:109-114 | adding a session dated after today leaves the streak unchanged |
| Streak.SameDaySessionCountsOnce | src/lib/utils.ts:109-111 | a further session on a day that already has one leaves the streak unchanged |
| Streak.DaysOfPermutation | src/lib/utils.ts:97-99 | reordering the sessions keeps the set of session days, so sorting does not change the streak |
| Streak.SortNewestFirst | src/lib/utils.ts:97-99 | the array ends ordered by creation time, non-increasing, holding the same sessions as before |
| Streak.CalculateStudyStreak | src/lib/utils.ts:93-118 | returns the streak of the caller's sessions ending on the day of now, at most their number, and leaves the array sorted newest first and a permutation of its input |
| StudyPlan.GenerateStudyPlan | src/lib/utils.ts:120-136 | the plan carries the date and the target minutes, and its module and review lists are empty |
| StudyPlan.PlanIgnoresModules | src/lib/utils.ts:120-130 | the plan is the same whatever modules are passed |
| StudyPlan.DefaultPlanMinutes | src/lib/utils.ts:122 | without a target the plan asks for 45 minutes |

## Left out

- `cn` (src/lib/utils.ts:4-6): a wrapper over the clsx and tailwind-merge libraries, which are not part of this model.
- `formatDate` and `formatDateTime` (src/lib/utils.ts:20-38): locale formatting through `toLocaleDateString`.
- `debounce` (src/lib/utils.ts:138-146): timers and asynchrony.
- Duration.FormatDuration: models integral minutes with unbounded integers, so it agrees with JavaScript only while the magnitude of minutes is at most Number.MAX_SAFE_INTEGER (2^53 - 1). Beyond that, in either direction, the double arithmetic is inexact, and from magnitude 10^21 on `${minutes}` prints exponent notation ("-1e+21m"). Fractional, NaN and infinite numbers are not modelled either.
- Decimal.NatToString: plain decimal digits for every natural number, matching JavaScript only up to Number.MAX_SAFE_INTEGER; from 2^53 on JavaScript prints the shortest digits that round-trip to the double followed by zeros ("18446744073709552000" for 2^64), and from 10^21 on exponent notation.
- Decimal.IntToString: plain decimal digits for every integer, matching JavaScript only for magnitudes up to Number.MAX_SAFE_INTEGER; from 2^53 on JavaScript prints the shortest digits that round-trip to the double followed by zeros, and from 10^21 on exponent notation.
- Progress.CalculateProgress: counts are integers and the division is exact. Binary floating point can round a value that is exactly half-way on paper the other way (29/200·100 is 14.4999… in JavaScript and rounds to 14; here it rounds to 15).
- Streak.CalculateStudyStreak: days are whole UTC-style days of the millisecond timestamp. Local time zones, daylight-saving changes in `setHours`/`setDate` and invalid dates are not modelled. `new Date()` is the parameter `now`.
- Streak.SortNewestFirst: a session is modelled by its creation time only. Sessions with equal times are then indistinguishable, so the stability of JavaScript's sort is not stated.
- StudyPlan.GenerateStudyPlan: `new Date()` is the parameter `now`. The input modules and the plan's module and review lists are three independent type parameters, because the source types them as `any`.
- The mastery scheduling, mastery propagation and plan selection described for the application have no code in the repository. The `masteryScore`, `reviewsDue` and relationship `strength` columns of src/lib/schema.ts are never read or written by it. None of these is modelled.
- The React pages, next-auth configuration and database schema: rendering, I/O and declarations with no behaviour to verify.
