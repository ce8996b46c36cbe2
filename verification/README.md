# Wallpaper shop front end: quote, catalogue filter and bookings calendar

This Dafny project models the three pieces of the shop's React front end that
hold actual logic. It also proves what those pieces promise.

- **Instant quote calculator** (`QuoteCalculator`, `quote.dfy`). Wall width
  and height, and two unit prices, give four figures: the wall area, a material
  cost, an installation cost and a total. Blank or unparsable entries count as
  0. Each cost is rounded on its own with `Math.round`, and the total adds the
  two rounded costs. Numbers are exact reals. `parseFloat` is represented by
  its outcome, `Option<real>`, where `None` stands for NaN.
- **Catalogue filter** (`Gallery`, `gallery.dfy`, with the search in `Text`,
  `text.dfy`). The loaded wallpaper list is narrowed by five tests and keeps
  catalogue order:
  - a case-insensitive title search;
  - three drop-downs that need exact equality unless set to "All";
  - a three-bucket price drop-down.
  
  `update` replaces one drop-down's value.
- **Bookings calendar** (`BookingsCalendar`, `calendar.dfy`, on top of
  `Gregorian`, `gregorian.dfy`, and `IsoDate`, `isodate.dfy`).
  - The month grid is six weeks of seven consecutive days, starting on the
    Sunday on or before the 1st.
  - Fetched bookings are grouped by their date string.
  - Each cell shows a count badge, the first two bookings and "+N more".
  - The Prev/Next buttons move a cursor, the 1st of the shown month.
  - Bookings are fetched for the range from the first to the last day of
    the month.

JavaScript's `new Date(y, m, d)` is modelled as a calendar day by
`Gregorian.Normalize`:
- the month carries into the year by floor division;
- the day then counts forward or backward from the 1st of that month.

Dates are checked against a day count from 0000-01-01 in the proleptic
Gregorian calendar. Weekdays follow `getDay()`, with Sunday = 0. A cell's key
is the `YYYY-MM-DD` form of its date (`IsoDate.IsoKey`).

Costs are rounded with `Math.round`, which sends halves towards positive
infinity: `Round(x) = floor(x + 1/2)`. This is not round-half-away-from-zero.
The two rules differ only for negative products, which a negative width
typed into the field can produce. `QuoteCalculator.NegativeHalfExample`
shows the difference.

## Model

| member | source | states |
|---|---|---|
| QuoteCalculator.Round | src/components/QuoteCalculator.jsx:16-17 | `Math.round` yields an integer within (x - 1/2, x + 1/2] of its argument |
| QuoteCalculator.RoundUnique | src/components/QuoteCalculator.jsx:16-17 | only one integer lies in that window, so the rounding contract fixes the result |
| QuoteCalculator.RoundMonotone | src/components/QuoteCalculator.jsx:16-17 | rounding preserves the order of its arguments |
| QuoteCalculator.Coerce | src/components/QuoteCalculator.jsx:11-12 | a parsed entry with the fallback to 0 is 0 exactly when the entry is unparsable or zero, and otherwise the parsed number |
| QuoteCalculator.SetWidth | src/components/QuoteCalculator.jsx:32 | typing a width changes only the width entry |
| QuoteCalculator.SetHeight | src/components/QuoteCalculator.jsx:35 | typing a height changes only the height entry |
| QuoteCalculator.SetPrice | src/components/QuoteCalculator.jsx:38 | an unparsable unit price is stored as 0, a number as itself, other fields untouched |
| QuoteCalculator.SetInstall | src/components/QuoteCalculator.jsx:41 | same for the installation unit price |
| QuoteCalculator.Compute | src/components/QuoteCalculator.jsx:10-18 | area is the unrounded product; each cost is within half a unit of area times its price; the total is the sum of the rounded costs and lies within (-1, 1] of area times the summed prices |
| QuoteCalculator.QuoteOf | src/components/QuoteCalculator.jsx:10-18 | a blank or unparsable width or height gives an all-zero estimate; otherwise the area is width times height; total is material plus installation |
| QuoteCalculator.ZeroAreaIsFree | src/components/QuoteCalculator.jsx:11-18 | a zero dimension makes every figure 0 whatever the prices |
| QuoteCalculator.TotalMonotone | src/components/QuoteCalculator.jsx:10-18 | with non-negative inputs, raising any of width, height, price or installation price never lowers either cost or the total |
| QuoteCalculator.CostMonotone | src/components/QuoteCalculator.jsx:16-17 | a rounded cost grows with area and unit price |
| QuoteCalculator.DefaultPricesExample | src/components/QuoteCalculator.jsx:7-18 | at the default prices 150 and 40, a 10 by 8 wall gives 80, 12000, 3200 and 15200 |
| QuoteCalculator.BlankWidthExample | src/components/QuoteCalculator.jsx:11-13 | a blank width with a height entered still gives zero |
| QuoteCalculator.HalfGoesUpExample | src/components/QuoteCalculator.jsx:16 | 150.5 rounds to 151 |
| QuoteCalculator.RoundThenAddExample | src/components/QuoteCalculator.jsx:16-18 | rounding before adding differs from rounding the sum: 0.5 + 0.5 per square foot totals 2, not 1 |
| QuoteCalculator.NegativeHalfExample | src/components/QuoteCalculator.jsx:16 | a negative half rounds up: an area of -2.5 at price 1 costs -2 |
| Text.Lower | src/components/Gallery.jsx:26 | `toLowerCase` keeps the length and lowers each character |
| Text.LowerIdempotent | src/components/Gallery.jsx:26 | lowering twice is lowering once |
| Text.ContainsIff | src/components/Gallery.jsx:26 | `includes` holds iff the query occurs at some index of the title |
| Gallery.Update | src/components/Gallery.jsx:39 | `update(key, value)` sets that filter and keeps the other three |
| Gallery.MatchesQuery | src/components/Gallery.jsx:26 | an empty query matches everything; a non-empty query matches an entry iff it has a title and the lower-cased query occurs at some index of the lower-cased title, so untitled entries are dropped |
| Gallery.MatchesField | src/components/Gallery.jsx:27-29 | "All" accepts every value; any other selection accepts exactly the fields equal to it |
| Gallery.InBucket | src/components/Gallery.jsx:30-34 | only "All" lets a NaN price through, and a selection that is none of the four options lets nothing through |
| Gallery.Keep | src/components/Gallery.jsx:25-35 | with no query and every drop-down on "All" every entry passes; an entry that passes a non-empty query has a title, one that passes a specific style, colour or room has exactly that value, and one that passes a price bucket has a numeric price |
| Gallery.Filtered | src/components/Gallery.jsx:24-37 | the shown list is a subsequence of the catalogue, holds only entries that pass all five tests, and holds every passing entry exactly as often as the catalogue does |
| Gallery.FilteredMembership | src/components/Gallery.jsx:24-36 | an entry is shown iff it is in the catalogue and passes all five tests |
| Gallery.FilterKeepsAllPassing | src/components/Gallery.jsx:24-37 | a list whose every entry passes is shown unchanged |
| Gallery.NoFilterShowsEverything | src/components/Gallery.jsx:8-37 | an empty query with every drop-down on "All" shows the whole catalogue |
| Gallery.FilterIdempotent | src/components/Gallery.jsx:24-37 | filtering the shown list again changes nothing |
| Gallery.FilterNarrowing | src/components/Gallery.jsx:24-37 | stricter settings show a subsequence of what looser settings show |
| Gallery.SelectingNarrows | src/components/Gallery.jsx:27-39 | moving one drop-down off "All" shows a subsequence of the previous list |
| Gallery.PriceBucketsPartition | src/components/Gallery.jsx:30-34 | a numeric price is in exactly one of the three buckets; a NaN price is in none |
| Gregorian.DaysInMonth | src/components/BookingsCalendar.jsx:9 | a month has 28 to 31 days |
| Gregorian.Weekday | src/components/BookingsCalendar.jsx:8 | `getDay()` lies in 0..6 |
| Gregorian.Normalize | src/components/BookingsCalendar.jsx:15 | `new Date(y, m, d)` is a real calendar day lying d - 1 days after the 1st of month m, with m first carried into the year |
| Gregorian.NormalizeValid | src/components/BookingsCalendar.jsx:15 | a real date is left as it is |
| Gregorian.NormalizeIntoPrevMonth | src/components/BookingsCalendar.jsx:11-15 | a day number from -27 to 0 lands in the previous month |
| Gregorian.NormalizeWithinMonth | src/components/BookingsCalendar.jsx:15 | a day within the month is kept |
| Gregorian.NormalizeIntoNextMonth | src/components/BookingsCalendar.jsx:15-22 | up to 28 days past the month's end lands in the next month |
| Gregorian.DayZeroIsLastDay | src/components/BookingsCalendar.jsx:9 | day 0 of the next month is the last day of this one |
| Gregorian.FebruaryLength | src/components/BookingsCalendar.jsx:9 | February has 29 days exactly in leap years |
| Gregorian.WeekdayStep | src/components/BookingsCalendar.jsx:8 | weekdays advance by one per day, modulo 7 |
| Gregorian.WeekdayExamples | src/components/BookingsCalendar.jsx:8 | 1 January 2024 is a Monday, 1 January 1970 a Thursday |
| IsoDate.IsoKey | src/components/BookingsCalendar.jsx:20 | a date has a `YYYY-MM-DD` key exactly when its year is 0..9999; the key is ten characters with dashes at 4 and 7 |
| IsoDate.IsoRoundTrip | src/components/BookingsCalendar.jsx:20 | reading a key back gives the date it was made from |
| IsoDate.IsoKeyInjective | src/components/BookingsCalendar.jsx:20 | distinct dates have distinct keys |
| IsoDate.ParsedKeyIsCanonical | src/components/BookingsCalendar.jsx:20 | a string that reads as a date is that date's key |
| BookingsCalendar.StartDay | src/components/BookingsCalendar.jsx:8 | the 1st's weekday is 0..6 |
| BookingsCalendar.MonthLength | src/components/BookingsCalendar.jsx:9 | the month length read as day 0 of the next month is the Gregorian length |
| BookingsCalendar.CellOf | src/components/BookingsCalendar.jsx:15-21 | the cell for a day number is a real date that many days (less one) after the 1st; it has a key exactly when its year is 0..9999, and the key reads back as the cell's date |
| BookingsCalendar.Grid | src/components/BookingsCalendar.jsx:6-27 | the grid has 42 cells, all real dates, cell k being the day k - startDay after the 1st |
| BookingsCalendar.Week | src/components/BookingsCalendar.jsx:13-23 | the inner loop builds seven cells for consecutive days from its starting day |
| BookingsCalendar.MonthMatrix | src/components/BookingsCalendar.jsx:6-27 | `getMonthMatrix` returns 6 weeks of 7 cells, cell (w, d) being grid cell 7w + d |
| BookingsCalendar.FlattenRows | src/components/BookingsCalendar.jsx:82 | read row by row, the weeks are the grid's cells in order |
| BookingsCalendar.CellDayNumber | src/components/BookingsCalendar.jsx:11-22 | cell k lies k - startDay days after the 1st |
| BookingsCalendar.GridConsecutive | src/components/BookingsCalendar.jsx:15-22 | each cell is the day after the previous cell |
| BookingsCalendar.GridDistinct | src/components/BookingsCalendar.jsx:15-22 | different cells show different days |
| BookingsCalendar.FirstOfMonthPlacement | src/components/BookingsCalendar.jsx:7-11 | the 1st sits in week 0 at column startDay, the 1st's weekday |
| BookingsCalendar.ColumnIsWeekday | src/components/BookingsCalendar.jsx:8-22 | every cell in column d falls on weekday d |
| BookingsCalendar.InMonthIff | src/components/BookingsCalendar.jsx:8-18 | the month always fits in the grid; a cell is in the month iff it lies in the month's run of days, and then it is the matching day |
| BookingsCalendar.InMonthCount | src/components/BookingsCalendar.jsx:9-18 | exactly as many cells are in the month as the month has days |
| BookingsCalendar.OnDateAppend | src/components/BookingsCalendar.jsx:46-49 | appending a booking extends only its own date's list |
| BookingsCalendar.OnDateMembership | src/components/BookingsCalendar.jsx:45-50 | a booking is listed under a date iff it is in the input and carries that date |
| BookingsCalendar.GroupByDate | src/components/BookingsCalendar.jsx:45-50 | each bucket holds exactly the bookings of its date in input order, and no bucket is empty |
| BookingsCalendar.Load | src/components/BookingsCalendar.jsx:44-55 | a non-array response gives no buckets; an array is grouped by date, except that a booking dated with a name inherited from `Object.prototype` makes the grouping throw, and the buckets shown before stay |
| BookingsCalendar.InheritedDateExample | src/components/BookingsCalendar.jsx:45-53 | one booking dated "constructor" leaves the previous buckets in place |
| BookingsCalendar.ExactlyOneBucket | src/components/BookingsCalendar.jsx:45-50 | every booking is in its own date's bucket and in no other |
| BookingsCalendar.TotalSizeRemove | src/components/BookingsCalendar.jsx:45-50 | the bucket total can be counted starting from any bucket |
| BookingsCalendar.TotalSizeUpdate | src/components/BookingsCalendar.jsx:48-49 | replacing one bucket changes the total by that bucket's growth |
| BookingsCalendar.GroupSizesSum | src/components/BookingsCalendar.jsx:45-50 | the bucket sizes add up to the number of bookings |
| BookingsCalendar.DayView | src/components/BookingsCalendar.jsx:88-97 | the badge appears iff there is a booking and shows the count; at most the first two are listed; "+N more" appears iff there are more than two, and the listed and the rest make up the count |
| BookingsCalendar.CellBookings | src/components/BookingsCalendar.jsx:83 | a cell whose key has no bucket shows no bookings; otherwise it shows its bucket whole |
| BookingsCalendar.CellShowsItsDay | src/components/BookingsCalendar.jsx:83 | a cell shows, in fetch order, exactly the bookings whose date string reads as the cell's date |
| BookingsCalendar.AtMostOneCell | src/components/BookingsCalendar.jsx:82-83 | a booking shows in at most one cell of the grid |
| BookingsCalendar.InitialCursor | src/components/BookingsCalendar.jsx:30-31 | the cursor starts on the 1st of today's month |
| BookingsCalendar.Prev | src/components/BookingsCalendar.jsx:69 | Prev gives the 1st of the previous month, wrapping the year, one month length before |
| BookingsCalendar.Next | src/components/BookingsCalendar.jsx:71 | Next gives the 1st of the following month, wrapping the year, one month length after |
| BookingsCalendar.NavigationRoundTrip | src/components/BookingsCalendar.jsx:69-71 | Next then Prev, and Prev then Next, return to the cursor |
| BookingsCalendar.FetchRange | src/components/BookingsCalendar.jsx:38-39 | the fetch runs from the 1st to the last day of the cursor's month |
| BookingsCalendar.FetchRangeCoversMonth | src/components/BookingsCalendar.jsx:38-39 | a cell is in the month iff its day lies in the fetched range |
| BookingsCalendar.UtcDateOfLocalMidnight | src/components/BookingsCalendar.jsx:20 | `toISOString` reports local midnight as the UTC day, offset by the zone in whole days, rounded down |
| BookingsCalendar.UtcKeyAsWritten | src/components/BookingsCalendar.jsx:20 | the key as written exists when the UTC date of local midnight has a four-digit year, and reads back as that UTC date rather than the cell's |
| BookingsCalendar.UtcKeyShift | src/components/BookingsCalendar.jsx:20 | east of UTC the key as written names the previous day; at or west of UTC it names the day itself |
| BookingsCalendar.UtcKeyExample | src/components/BookingsCalendar.jsx:38-39 | in India the 16 March 2024 cell looks up 15 March, and the March fetch stops at 30 March |
| BookingsCalendar.CellKeyIsLocalDate | src/components/BookingsCalendar.jsx:20 | the corrected key reads back as the cell's own local date |
| BookingsCalendar.JsDateAsWritten | src/components/BookingsCalendar.jsx:69-71 | `new Date(y, m, d)` as written is a real date d - 1 days after the 1st of month m, counted in year 1900 + y when y is 0..99 and in year y otherwise |
| BookingsCalendar.PrevAsWritten | src/components/BookingsCalendar.jsx:69 | Prev as written is the 1st of the month before the cursor's, in year 1900 + y for a cursor year y of 0..99 |
| BookingsCalendar.NextAsWritten | src/components/BookingsCalendar.jsx:71 | Next as written is the 1st of the month after the cursor's, in year 1900 + y for a cursor year y of 0..99 |
| BookingsCalendar.TwoDigitYearExample | src/components/BookingsCalendar.jsx:69-71 | from January of year 100, Prev reaches December 99, and Next from there jumps to January 2000 |

## Left out

- Network requests and response parsing are left out. These are the Gallery catalogue load and the calendar's bookings load. The parsed response is an input: a list of wallpapers, or a `Payload` for the bookings.
- A bookings request that fails, or a response body that is not JSON, is not modelled. Its error is swallowed and the previous buckets stay. The other swallowed error, a grouping loop that throws, is modelled by `BookingsCalendar.Load`.
- BookingsCalendar.GroupByDate: groups as a map from date strings to lists. The page's `byDate` is a plain object, and for a date naming an inherited `Object.prototype` member its loop throws instead. `BookingsCalendar.Load` checks for that case before grouping.
- BookingsCalendar.GroupByDate: a booking's date is taken as a string. The page uses a non-string date by its string form, so a missing date is filed under "undefined".
- The `loading` flag, React state, effects and memoisation are not modelled. The model computes each derived value directly from its inputs.
- IEEE-754 doubles are not modelled. All quantities are exact reals, so double rounding in `w * h` and `area * price` is not reproduced.
- `toFixed` and `toLocaleString` display formatting is left out, and so are the month names shown above the grid.
- The `parseFloat` grammar is left out. A field's parse outcome is an `Option<real>`, and `None` is the NaN that `|| 0` turns into 0.
- `Number(w.price)` is represented by its outcome in the same way.
- Text.Lower: lower-cases ASCII letters only, because Unicode case mapping is not modelled.
- Gallery.MatchesQuery: a title that is present but is not a string would make `toLowerCase` throw. The model types every title as a string.
- Keys used only by React (`cell.key`, the list keys) are left out.
- Markup, styles and scrolling are left out.
- IsoDate.IsoKey: years outside 0..9999, which `toISOString` writes with a sign and six digits, get no key (`None`).
- Gregorian.Normalize: a date is a calendar day. Time of day, daylight saving and time zones are not modelled, except for the UTC shift in the first finding.
- Gregorian.Normalize: is defined for every year. JavaScript dates end 8.64e15 ms either side of 1970, about 275,000 years away; past that `new Date` is an invalid date and `toISOString` throws.
- Gregorian.Normalize does not model the two-digit-year rule of JavaScript's `Date` constructor. `BookingsCalendar.JsDateAsWritten` models that rule separately, for the second finding.
- The booking form and the admin panel are form wrappers around requests and are left out. The same goes for the header, the hero section and the app shell.

## Findings

| source | as written | input that shows it | evidently intended | confidence | as-written member | corrected member |
|---|---|---|---|---|---|---|
| src/components/BookingsCalendar.jsx:38-39 | the fetch range (and, on line 20, each cell key) takes `toISOString().slice(0, 10)` of local midnight, which is the UTC date | zone UTC+05:30: the cell for 2024-03-16 gets key 2024-03-15, and the March fetch ends at 2024-03-30 | the key and the range are the local calendar date of the cell | not executed | BookingsCalendar.UtcKeyExample | BookingsCalendar.CellKeyIsLocalDate |
| src/components/BookingsCalendar.jsx:69-71 | Prev/Next call `new Date(year, month ± 1, 1)`, and the constructor reads years 0..99 as 1900..1999 | cursor 0100-01-01: Prev gives 0099-12-01, then Next gives 2000-01-01; the same rule makes `getMonthMatrix` (lines 7 and 15) draw 1999 for a cursor in year 99 | Next after Prev returns to the cursor | not executed | BookingsCalendar.TwoDigitYearExample | BookingsCalendar.NavigationRoundTrip |

The model's `Gregorian.Normalize` and `IsoDate.IsoKey` are the corrected
definitions. The grid, the grouping and the navigation lemmas are stated
about them.
