# World Cup attendance map — a Dafny model of its animation core

The World Cup map draws one bubble per tournament year on a world map, sized by the
year's total attendance, and highlights the countries whose teams played that year.
When the page loads, a one-second interval steps through the tournament years, one
year per tick. When the last year has been drawn, the interval is cleared and one
button per year appears, so the viewer can jump back to any year.

This project models the integer logic of `src/js/main.js` and proves what it does:

- `years.dfy` (module `YearSequence`) models `getYears`, the loop that builds the
  timeline. `GetYears` is the loop itself. `YearsFrom` is the recursive reference it
  is proved against. Lemmas cover bounds, exclusion, strict increase, position on the
  progression `start + k * step`, completeness, and the concrete call
  `getYears(1930, 2015, 4, [1942, 1946])`.
- `aggregation.dfy` (module `Aggregation`) models the match table and its grouping.
  The table is grouped by year (`d3.nest`) into `Nest`. Each group gets the integer
  part of `aggregateYear`: the attendance sum (`TotalAttendance`) and the team set.
  The team set is built by the `forEach` loop `CollectTeams` over an insertion-ordered
  set (`Dedup`). The year filter of `update` is `Select`.
- `animation.dfy` (module `Animation`) models the rest. `update(year)` becomes `Render`,
  which returns `None` where the code throws. The interval callback and the buttons
  become the class `Animator`, whose `Tick` and `Click` methods update the cursor,
  the cleared flag, the buttons and a log of drawn frames.
- `wrappers.dfy` defines `Option`.

Where the code has no guard or depends on the data, the model follows the code:

- `step <= 0`: the loop in `getYears` (main.js:142-146) has no guard and never ends,
  so `GetYears` requires `step > 0`.
- A year with no entry: `update` reads `filtered[0].values` without a guard
  (main.js:82) and throws. `Render` returns `None` for it. A tick whose draw throws
  stops before `yearCounter++`, so the cursor stays on that year. An empty year list
  fails the same way: `years[0]` is undefined and matches no entry.
- Consecutive years differ by exactly `step` only when nothing is excluded
  (`YearsFromEvenlySpaced`). In the real timeline, 1938 is followed by 1950.
- The total and the team set do not depend on the order of a year's matches
  (`RollupOrderIndependent`). The team list itself, `teams.values()`, follows the
  order of the table.
- The order of the grouped entries is not modelled. `nested` is sorted in place by
  attendance (main.js:27-29) before any entry is read, and nothing the code reads
  depends on the order (`SelectPermutation`, `RenderPermutation`).

## Model

| member | source | states |
|---|---|---|
| `YearSequence.YearsFrom` | src/js/main.js:141-146 | The years the loop visits, without the excluded ones, in visiting order. Its contract is carried by `YearsFromMembers`, `YearsFromIncreasing`, `GetYearsProperties` and `YearsFromEvenlySpaced`, and `GetYears` is proved equal to it. |
| `YearSequence.GetYears` | src/js/main.js:140-148 | The loop returns exactly the reference list `YearsFrom(start, end, step, except)`; its invariant says the years pushed so far followed by the years still to visit make up the whole list. |
| `YearSequence.YearsFromMembers` | src/js/main.js:142-146 | A year is returned iff it is on the progression from `start` in steps of `step`, at most `end`, and not in `except`. |
| `YearSequence.YearsFromIncreasing` | src/js/main.js:142-145 | Every returned year is at least `start`, and the list is strictly increasing. |
| `YearSequence.GetYearsProperties` | src/js/main.js:142-146 | Empty when `start > end`. Every element lies in `[start, end]`, is not excluded and is on the progression. The list is strictly increasing. Every year on the progression up to `end` that is not excluded appears. |
| `YearSequence.OnProgressionMultiple` | src/js/main.js:142-145 | Being on the progression is the same as being `start + k * step` for some `k >= 0`. |
| `YearSequence.YearsFromEvenlySpaced` | src/js/main.js:143-146 | With no exclusions, the i-th year is `start + i * step`, and consecutive years differ by exactly `step`. |
| `YearSequence.WorldCupYears` | src/js/main.js:13 | `getYears(1930, 2015, 4, [1942, 1946])` gives the 20 years 1930, 1934, 1938, 1950, …, 2014. Any end from 2014 to 2017 gives the same list. |
| `Aggregation.TotalAttendance` | src/js/main.js:109-111 | `d3.sum` of the attendances of a year's matches. `TotalAppend`, `TotalRemove`, `TotalPermutation`, `TotalBound` and `NestTotal` state its contract. |
| `Aggregation.TotalAppend` | src/js/main.js:109-111 | The attendance sum of two concatenated tables is the sum of their sums. |
| `Aggregation.TotalRemove` | src/js/main.js:109-111 | Removing one match lowers the sum by exactly that match's attendance. |
| `Aggregation.TotalPermutation` | src/js/main.js:109-111 | Two tables with the same matches in any order have the same attendance sum. |
| `Aggregation.TotalBound` | src/js/main.js:109-111 | No match's attendance exceeds its year's total. |
| `Aggregation.Participants` | src/js/main.js:126-129 | The values the `forEach` adds to the team set, `team1` then `team2` of each match in order. `ParticipantsMembers` states which they are. |
| `Aggregation.ParticipantsMembers` | src/js/main.js:126-129 | The values added to the team set are exactly the `team1` and `team2` values of the matches. |
| `Aggregation.Dedup` | src/js/main.js:125-135 | The set's `values()` hold no duplicates and contain exactly the values that were added. |
| `Aggregation.CollectTeams` | src/js/main.js:125-129 | The `forEach` loop yields the insertion-ordered set of the teams that were added. That list has no duplicates and holds exactly the teams that played one of the matches. |
| `Aggregation.Rollup` | src/js/main.js:109-135 | The integer part of `aggregateYear`: the attendance sum and the team list. `RollupTeams`, `RollupOrderIndependent` and `RollupExample` state its contract, and `AggregateYear` computes it with the loop. |
| `Aggregation.AggregateYear` | src/js/main.js:95-137 | The aggregate's attendance is the sum over the year's matches. Its teams are exactly the teams of those matches, each listed once. |
| `Aggregation.RollupTeams` | src/js/main.js:125-135 | The `teams` of an aggregate have no duplicates and are exactly the teams that played. |
| `Aggregation.RollupOrderIndependent` | src/js/main.js:109-129 | Reordering a year's matches changes neither the total nor which teams are listed. |
| `Aggregation.RollupExample` | src/js/main.js:109-135 | Two matches with 30000 and 50000 spectators, A–B and A–C, give 80000 and the teams A, B, C. |
| `Aggregation.LeavesOf` | src/js/main.js:17-19 | A group's leaves are exactly the matches of `data` played in that group's year, each as many times as it occurs in `data`. |
| `Aggregation.Nest` | src/js/main.js:17-19 | `d3.nest` keyed by year with `aggregateYear` as rollup. `NestGroups` and `NestTotal` state its contract. |
| `Aggregation.NestGroups` | src/js/main.js:17-19 | There is one entry per year in which a match was played and no other. Each entry's aggregate is that of exactly that year's matches. |
| `Aggregation.NestTotal` | src/js/main.js:17-19 | The attendance of all entries of the grouped table adds up to the attendance of the whole match table: every match is counted in exactly one year's total. |
| `Aggregation.Select` | src/js/main.js:64-66 | The filter of `update` on the entry keys. `SelectKeeps`, `SelectUnique`, `SelectPermutation` and `SelectNest` state its contract. |
| `Aggregation.SelectKeeps` | src/js/main.js:64-66 | The filter keeps exactly the entries whose key is the requested year. |
| `Aggregation.SelectUnique` | src/js/main.js:64-66 | When keys are distinct, the filter gives the single entry with that year, or nothing when no entry has it. |
| `Aggregation.SelectPermutation` | src/js/main.js:27-29 | The in-place sort of the grouped table by attendance does not change what the filter returns for any year. |
| `Aggregation.SelectNest` | src/js/main.js:64-66 | Filtering the grouped table by a year gives that year's aggregate iff a match was played that year, and otherwise nothing. |
| `Animation.Render` | src/js/main.js:63-92 | `update(year)` reduced to the frame it draws, or `None` where it throws. `RenderSelects`, `RenderNest` and `RenderPermutation` state its contract. |
| `Animation.RenderSelects` | src/js/main.js:63-92 | `update(year)` completes iff some entry has key `year`. The frame then has the year as heading, shows exactly the bubbles keyed by the year, and highlights the teams of such an entry. |
| `Animation.RenderNest` | src/js/main.js:64-82 | On the grouped table, a year draws iff a match was played in it. It then shows one bubble with the year's aggregate and highlights exactly the year's teams, each once. |
| `Animation.RenderPermutation` | src/js/main.js:27-29 | Sorting the grouped table does not change what any year draws. |
| `Animation.Animator.constructor` | src/js/main.js:37-39 | The cursor starts at 0 with the interval running, no buttons, nothing active and nothing drawn. |
| `Animation.Animator.Tick` | src/js/main.js:39-57 | A tick draws `years[counter]` and advances the cursor by one. If the draw throws, nothing changes. The interval is cleared (exactly once) and the buttons appear exactly when the cursor reaches the end of the list. The invariant keeps the first `counter` frames as the draws of the first `counter` years, in order. |
| `Animation.Animator.Click` | src/js/main.js:51-55 | A click marks its year active and draws it. It leaves the cursor, the cleared interval and the buttons as they were. |

## Left out

- Everything drawn by d3 is left out: the SVG, the selections, the enter/exit transitions, the path and class updates, the heading text and the button elements. A frame records only the heading year, the entries bound to bubbles, and the highlighted teams.
- The Mercator projection, the centroid means `x` and `y` of `aggregateYear`, `attendanceMax` and the square-root radius scale are left out. They are floating-point computations for display only.
- Loading and parsing the two data files (`d3.json`, `d3.tsv`, `d3.time.format`) is I/O and is left out. The model takes the match table as already parsed. Attendance is a `nat`. A match's year is given, whereas the code derives it from a date that is parsed in local time.
- Real time is left out. A tick of the one-second interval is a call of `Animator.Tick`. Clearing the interval means `Tick` is never called again, which its precondition `!done` states.
- Render: when the code throws for a missing year, it has already rewritten the heading and removed the old bubbles. The model records no frame for that call and does not capture those partial effects.
- JavaScript numbers are IEEE doubles. Years and attendances are modelled as unbounded integers, which agrees with the code for every year the map can show.
- The keys of `d3.nest` are strings, and `update` compares `new Date(d['key']).getUTCFullYear() === year` (main.js:65). The model keys entries by the integer year and compares `key == year`. The two agree for four-digit years, which is every year of the table. For keys outside 1000-9999 the date parsing of the key is not modelled.
- `gulpfile.js` is not part of this model. It only configures the build tools.
