# cinebot: the Prince Charles Cinema listing scraper

This project models the parsing and extraction core of `app/scraper.py` in Dafny. That file scrapes the "what's on" page of the Prince Charles Cinema. It turns every performance of every film into a screening record with four fields: venue, film title, ISO date and 24-hour time.

The model has three parts, each with its own module.

- **`DateHeading`** (`date_heading.dfy`) models `parse_pcc_date`. A year-less heading such as "Thursday 3rd April" becomes a calendar date:
  - the text is stripped;
  - ordinal suffixes after digits are removed, scanning as `re.sub` does;
  - `CURRENT_YEAR` is appended and the text is read with `strptime('%A %d %B %Y')`;
  - a date more than 60 days before today is read again with the following year.
- **`ClockTime`** (`clock_time.dfy`) models `parse_pcc_time`. A 12-hour listing time such as "3:30 pm" becomes a zero-padded 24-hour "15:30" (`strptime('%I:%M %p')`, then `strftime('%H:%M')`). As in Python's `strptime`, the hour may be one digit, zero-padded or space-padded, and the minute may be one digit or two.
- **`Scraper`** (`scraper.dfy`) models the loop of `scrape_pcc`. It is written as two methods with loops, `ScrapeContainers` and `ScrapeFilm`, over an abstract page:
  - the page is a sequence of film containers;
  - each container has an optional title-anchor text and an optional performance list;
  - each list child is a date heading, a performance item (with the text of its time span, if it has one) or something else.

  Both methods are proved against fold functions: `DocRecords`, `FilmRecords`, `DateAfter`, `ProcessedCount` and `SkippedCount`. The properties the scraper promises are lemmas about those functions.

Supporting modules:

- `Text` holds the parts of Python string handling that are used:
  - `str.strip` with Python's whitespace set;
  - ASCII digits;
  - `f"{n}"`, `%02d` and `%04d`;
  - case-insensitive comparison;
  - the whitespace-separated words that a format space in `strptime` accepts.
- `Calendar` models the proleptic Gregorian calendar of `datetime.date`:
  - validity for years 1 to 9999;
  - leap years;
  - `toordinal` and date subtraction;
  - `str(date)`, with its inverse.
- `Seqs` holds generic sequence lemmas, and `Optional` holds the `Option` type.

The clock is not read. `CURRENT_YEAR` (line 14) and `datetime.now().date()` (line 37) are parameters, `currentYear` and `today`, of every function that depends on them.

Three behaviours of the code that a reader might not expect are modelled as written:

- A date heading that fails to parse sets the current date to `None`, so it clears any earlier date rather than keeping it (line 126).
- The first `strptime`, with the current year, must succeed before the 60-day rule is applied. "29th February" in a common year therefore fails even when the following year is a leap year (lines 35-39).
- `bs4` tags are always truthy. So the tests `if title_anchor`, `if not perf_list` and `if not time_span` only check whether the element is present, and the model tests presence too.

## Model

| member | source | states |
|---|---|---|
| Text.Strip | app/scraper.py:33 | `str.strip()` never lengthens its input, and neither end of the result is whitespace |
| Text.StripIsSlice | app/scraper.py:33 | what `strip` keeps is a contiguous slice of the input with only whitespace on either side |
| DateHeading.StripOrdinals | app/scraper.py:33 | the ordinal substitution never lengthens the text and keeps its first character |
| DateHeading.StripOrdinalsChangesOnlyMatches | app/scraper.py:33 | the ordinal substitution changes the text exactly when digits followed by st/nd/rd/th occur somewhere in it |
| DateHeading.StripOrdinalsDropsSuffix | app/scraper.py:33 | digits followed by st/nd/rd/th keep their digits and lose the suffix |
| DateHeading.StripOrdinalsKeepsBareDigits | app/scraper.py:33 | digits that no suffix follows are copied unchanged |
| DateHeading.StripOrdinalsKeepsText | app/scraper.py:33 | text without digits is copied unchanged |
| DateHeading.ReadWeekdayDayMonthYear | app/scraper.py:35-39 | `strptime('%A %d %B %Y')` only ever yields a valid calendar date |
| DateHeading.ParsePccDate | app/scraper.py:22-51 | the empty heading gives None, and any date returned is a valid calendar date |
| DateHeading.ParsePccDateResolvesYear | app/scraper.py:33-48 | the result is the heading's day and month under the year rule: if the date in the current year is invalid the result is None; if it is more than 60 days before today, the following year's date (None if that is invalid); otherwise the current year's date |
| DateHeading.ParsePccDateKeepsDayMonth | app/scraper.py:34-44 | on success the date has the heading's day and month, and its year is the current year when that date is at most 60 days before today and the next year otherwise |
| DateHeading.HeadingRoundTrip | app/scraper.py:33-35 | every heading "Weekday D[st/nd/rd/th] Month" reads as day D of that month |
| DateHeading.ThursdayThirdApril | app/scraper.py:33-44 | "Thursday 3rd April" resolves as 3 April under the year rule, whatever today is |
| DateHeading.HeadingAheadKeepsCurrentYear | app/scraper.py:34-44 | seen on 1 March 2025, "Thursday 3rd April" is 3 April 2025 |
| DateHeading.HeadingLongPastMeansNextYear | app/scraper.py:37-39 | seen on 10 December 2025, "Thursday 3rd April" is 3 April 2026 |
| DateHeading.LeapDayNeedsCurrentLeapYear | app/scraper.py:35-48 | "Tuesday 29th February" gives None in 2027 even though 29 February 2028 exists |
| Calendar.NextDayIsOneLater | app/scraper.py:37 | the ordinal behind date subtraction counts days: the next calendar day is exactly one later |
| Calendar.OrdinalFollowsCalendarOrder | app/scraper.py:37 | a later calendar date has a larger ordinal, so the day difference from an earlier date is positive |
| Calendar.OrdinalOrderIff | app/scraper.py:37 | for two different valid dates, one is earlier in the calendar exactly when its ordinal is smaller |
| Calendar.IsoFormat | app/scraper.py:148 | `str(date)` is ten characters of the form YYYY-MM-DD, whose three digit fields have the values of the year, the month and the day |
| Calendar.IsoRoundTrip | app/scraper.py:148 | reading the ISO text of a valid date gives back that date |
| ClockTime.ParsePccTime | app/scraper.py:57-73 | the empty text gives None, and any result is zero-padded "HH:MM" with hour 0-23 and minute 0-59 |
| ClockTime.ReadClock12 | app/scraper.py:64 | any reading of `strptime('%I:%M %p')` is a valid 12-hour clock: hour 1-12, minute 0-59 |
| ClockTime.To24 | app/scraper.py:64-65 | the 24-hour hour is 0-23, below 12 exactly for am, and equal to the 12-hour hour modulo 12 |
| ClockTime.ClockText | app/scraper.py:65 | `strftime('%H:%M')` is "HH:MM" whose two digit fields have the values of the hour and the minute |
| ClockTime.To24Bijective | app/scraper.py:64-65 | the 12-to-24-hour conversion (12 am is 00, 12 pm is 12, other pm hours add 12) is a bijection |
| ClockTime.ParsePccTimeAccepts | app/scraper.py:64-65 | every text of the form hour 1-12 (one digit, zero-padded or space-padded), ':', minute 0-59 (two digits, or one digit below 10), whitespace, am/pm in any case is accepted, and the result is the 24-hour form of that hour and the same minute |
| ClockTime.ParsePccTimeOnlyAccepts | app/scraper.py:64-70 | every accepted text has that form |
| ClockTime.WithoutSpaceRefused | app/scraper.py:64-70 | a text with no whitespace, such as "3:30pm", is refused |
| ClockTime.Midnight | app/scraper.py:64-65 | "12:00 am" is "00:00" |
| ClockTime.Noon | app/scraper.py:64-65 | "12:00 pm" is "12:00" |
| ClockTime.HalfPastThree | app/scraper.py:64-65 | "3:30 pm" is "15:30" |
| ClockTime.FivePastOne | app/scraper.py:64-65 | "1:05 PM" is "13:05" |
| ClockTime.FivePastThree | app/scraper.py:64-65 | "3:5 pm", with a one-digit minute, is "15:05" |
| ClockTime.BlankPaddedHour | app/scraper.py:64-65 | " 3:30 pm", with a space-padded hour, is "15:30" |
| ClockTime.HourThirteenRefused | app/scraper.py:64-70 | "13:00 pm" is refused |
| ClockTime.MinuteSixtyRefused | app/scraper.py:64-70 | "12:60 pm" is refused |
| Scraper.FilmTitle | app/scraper.py:102-103 | the film title, taken from the stripped anchor text, has no whitespace at either end |
| Scraper.ScrapeFilm | app/scraper.py:117-151 | the inner loop over the children of one performance list appends exactly the film's records |
| Scraper.ScrapeContainers | app/scraper.py:89-151 | the container loop returns the page's records in page order, with processed and skipped counts; an empty page returns at once |
| Scraper.DateAfter | app/scraper.py:118-129 | any date in force after some children is a valid calendar date |
| Scraper.ChildRecords | app/scraper.py:131-151 | one child contributes at most one record |
| Scraper.ProcessedCount | app/scraper.py:98-116 | the processed counter never exceeds the number of containers |
| Scraper.SkippedCount | app/scraper.py:98-113 | the skipped counter never exceeds the number of containers |
| Scraper.FilmRecordsMembers | app/scraper.py:118-151 | a film's records are exactly those its li children yield under the date set by the headings before them |
| Scraper.DateAfterLastHeading | app/scraper.py:124-129 | the date in force is what the most recent heading parsed to, whatever came before it |
| Scraper.DateAfterNoHeading | app/scraper.py:118-126 | before any heading there is no date in force |
| Scraper.NoHeadingNoRecords | app/scraper.py:118-134 | items before the first heading are discarded |
| Scraper.NoDateNoRecords | app/scraper.py:124-134 | with no date in force, li and other children add nothing and leave no date in force |
| Scraper.FailedHeadingDropsFollowing | app/scraper.py:124-134 | after a heading that fails to parse, following items are discarded until the next heading |
| Scraper.HeadingDatesRun | app/scraper.py:120-151 | after a heading that parses to a date, a following run of children without headings has that date in force, and its records are the run's readable performances, in order, each stamped with that date |
| Scraper.FilmRecordsBound | app/scraper.py:131-151 | each film contributes at most one record per li child |
| Scraper.FilmRecordsWellFormed | app/scraper.py:144-150 | every record has the venue, the non-empty stripped title, an ISO date and an "HH:MM" time |
| Scraper.DocRecordsWellFormed | app/scraper.py:101-150 | every record of the page is well formed in that sense |
| Scraper.DocRecordsAppend | app/scraper.py:101-151 | containers are independent: the records of a page are those of its parts, in order |
| Scraper.SkippedContributesNothing | app/scraper.py:101-114 | a skipped container, wherever it stands, changes no record |
| Scraper.CountsPartition | app/scraper.py:98-116 | every container is counted once: processed plus skipped is the number of containers |
| Scraper.HeadingAndTwoTimes | app/scraper.py:120-151 | a heading followed by two readable times yields two records on the heading's date, in order |
| Scraper.PageWithSkippedSecond | app/scraper.py:101-116 | a processed container followed by a skipped one: the records of the first, one processed and one skipped |
| Scraper.TwoFilmPage | app/scraper.py:89-151 | the documented page ("Film A", "Thursday 3rd April", "12:00 pm", "3:30 pm", then a film without a list) seen on 1 March 2025 yields two records on 2025-04-03 at 12:00 and 15:30 |
| Scraper.ScrapeAsWritten | app/scraper.py:82-162 | as written, the call raises exactly when the fetch fails; on a fetched page it returns the page's records |
| Scraper.NetworkErrorRaisesAsWritten | app/scraper.py:84-86 | as written, a network error makes the call raise instead of returning |
| Scraper.ScrapePcc | app/scraper.py:82-162 | corrected: a network error gives the empty list, a fetched page gives its records, and wherever the code as written returns, the result agrees with it |

## Left out

- Network I/O: `requests.get`, the headers, the timeout and `raise_for_status` (lines 85-86). In the model a fetch is a parameter: either a network error or the film containers of a fetched page.
- HTML parsing: BeautifulSoup with lxml, and the class selectors (lines 87-91, 102, 110, 136). These call into a foreign library. The model starts from the containers they select. A heading or li is given by its text, and an li by the text of its time span.
- Tags versus text nodes (line 121): text nodes and tags other than the heading div and the li are one `Ignored` child, which changes nothing.
- Logging, including the `found_screenings_for_film` counter, which only feeds a log line (lines 117, 151, 153-154). Logging has no effect on the result.
- The generic `except Exception` handlers (lines 49-51, 71-73, 158-159). No exception other than the `ValueError` already modelled as None can arise in the modelled code. An unexpected error inside the container loop would leave the counters bound and return what had been collected so far. That path is not modelled.
- `save_showtimes`, the JSON output and the command-line block (lines 168-182): file I/O.
- The clock: `datetime.now()` and `CURRENT_YEAR` are parameters (`today`, `currentYear`).
- Locale: month and weekday names are the English ones of the C locale.
- Unicode: `\d` is taken to match ASCII digits only (Python's `re` also matches other Unicode decimal digits), and case folding is ASCII only.
- ClockTime.ParsePccTime: the call to `lower()` on line 64 is modelled as case-insensitive matching of "am"/"pm". This is equivalent for ASCII text only.
- Microsecond, hour and second fields of the parsed `datetime` objects: only the date (line 44) or the "%H:%M" text (line 65) leaves each parser.

## Findings

| source | as written | input that shows it | evidently intended | confidence | as-written member | corrected member |
|---|---|---|---|---|---|---|
| app/scraper.py:156-161 | `processed_count` and `skipped_count` are first bound at lines 98-99, inside the try after the fetch. When the fetch fails, the `RequestException` handler only logs, and the summary log at line 161 then reads the unbound `processed_count`, so `UnboundLocalError` escapes `scrape_pcc` | `requests.get` raising `ConnectionError`, or `raise_for_status` raising `HTTPError` for a 500 reply | return the empty `screenings` list after logging the network error | not executed | Scraper.NetworkErrorRaisesAsWritten | Scraper.ScrapePcc |
