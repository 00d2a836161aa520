# sky-scheduling core, modelled in Dafny

A model of the scheduling rules at the heart of the sky-scheduling application (a production
schedule for a printing shop). It covers:

- **DateManager.** Parses and prints the `MM/dd/yy` display strings and the two sentinel dates,
  "On Hold" (9999-12-31) and "Proofs" (9999-12-30). It steps a display string one day forward
  or back, builds the Sunday-to-Saturday week of a date (as endpoints and as seven days) and
  the inclusive range of days between two dates, and recognises the sentinels.
- **Completion checkboxes.**
  - Ticking one line item (`OrderDetailManager.orderDetailCheckboxChanged`) stamps that item.
    A single scan over the job's items then decides the job's own checkbox.
  - Ticking a job (`JobManager.jobCheckboxChanged`) stamps the job and pushes its state to the
    checkbox of every line item.
- **Grouping jobs.** The rows of the job/line-item join for one ship date are collapsed into one
  job bean per run of equal job ids. A second list keeps the incomplete jobs
  (`getAllJobsByDate`, `getJobsByDate`).
- **Code tables.** `PrintType` (labels and integer codes), `PrintingCompany` (integer codes) and
  the lookup of a `ViewType` by its view name.

Dates follow java.time. A `LocalDate` is its epoch day (an `int`, days after 1970-01-01), so
`plusDays`, `minusDays` and `ChronoUnit.DAYS.between` are integer arithmetic. The calendar
(`calendar.dfy`) converts between epoch days and year/month/day on the proleptic Gregorian
calendar and proves the conversion a bijection.

The `MM/dd/yy` formatter is modelled as java.time applies it:
- Each field is exactly two ASCII digits, and the whole string must match.
- A two-digit year reads as 2000-2099. The printed year is the year of era modulo 100.
- The default SMART resolver accepts a month of 1-12 and a day of 1-31. It then moves a day past
  the end of the month back to the month's last day: "02/30/16" reads as 2016-02-29.

The checkbox tree is a `TreeTable` object holding one boolean per row. A job row is keyed by its
job id and a line-item row by its detail id, as the handlers look them up. Beans are classes
whose completion fields the handlers update in place. A `null` timestamp is `None`, and the
current time is a parameter.

The database is replaced by what it returns:
- the joined rows, in query order, as a sequence of `Row` values;
- the line items of each job id, as a map (a job id with no entry has no line items).

Files:
- `base.dfy`: `Option`, `Result`, error kinds.
- `calendar.dfy`: epoch days and civil dates.
- `date_manager.dfy`: DateManager.
- `beans.dfy`: Job, OrderDetail, the tree table, completion stamps.
- `order_detail_manager.dfy`: the line-item checkbox handler.
- `job_manager.dfy`: the job checkbox handler and the row grouping.
- `print_type.dfy`, `printing_company.dfy`, `view_type.dfy`: the code tables.

## Model

| member | source | states |
|---|---|---|
| DateManager.GetLocalDate | src/info/chrismcgee/sky/components/DateManager.java:38-43 | "On Hold" gives HOLD_DATE and "Proofs" gives PROOF_DATE. Any other string succeeds exactly when it matches `MM/dd/yy` with month 1-12 and day 1-31, and otherwise fails with a parse error. A string naming a real date gives that date. |
| DateManager.ParseDisplay | src/info/chrismcgee/sky/components/DateManager.java:42 | `LocalDate.parse` with the display pattern accepts exactly the parsable strings. It yields the resolved date, or a parse error. |
| DateManager.Resolved | src/info/chrismcgee/sky/components/DateManager.java:26-42 | The resolver keeps year and month. It keeps the day when it fits the month, and otherwise lowers it to the month's last day. |
| DateManager.GetDisplayDate | src/info/chrismcgee/sky/components/DateManager.java:74-76 | The result matches the pattern. Its month and day fields are the date's, and its year field is the year of era modulo 100. |
| DateManager.ParsedFields | src/info/chrismcgee/sky/components/DateManager.java:38-43 | A parsed string names exactly the resolved date of its fields. |
| DateManager.ParseThenFormat | src/info/chrismcgee/sky/components/DateManager.java:38-76 | Every string naming a real date parses and formats back to itself. |
| DateManager.FormatThenParse | src/info/chrismcgee/sky/components/DateManager.java:38-76 | For every day of 2000-2099, formatting then parsing gives the same day. |
| DateManager.ShowThenParse | src/info/chrismcgee/sky/components/DateManager.java:38-76 | The display string of a 2000-2099 date is well formed and reads back as that date. |
| DateManager.HoldDateDoesNotRoundTrip | src/info/chrismcgee/sky/components/DateManager.java:19-76 | HOLD_DATE prints as "12/31/99". That string reads back as 2099-12-31, not as HOLD_DATE. |
| DateManager.ProofDateDoesNotRoundTrip | src/info/chrismcgee/sky/components/DateManager.java:20-76 | PROOF_DATE prints as "12/30/99". That string reads back as 2099-12-30, not as PROOF_DATE. |
| DateManager.OverlongDayIsAdjusted | src/info/chrismcgee/sky/components/DateManager.java:26-43 | "02/30/16" is accepted and reads as 2016-02-29, which prints as "02/29/16". |
| DateManager.GetNextDay | src/info/chrismcgee/sky/components/DateManager.java:113-119 | Succeeds exactly when the input parses; otherwise it fails with the parse error. |
| DateManager.GetPreviousDay | src/info/chrismcgee/sky/components/DateManager.java:155-161 | Succeeds exactly when the input parses; otherwise it fails with the parse error. |
| DateManager.NeighbourDisplays | src/info/chrismcgee/sky/components/DateManager.java:113-161 | For a string naming date c, the next and previous day print the calendar dates after and before c. |
| DateManager.NextThenPrevious | src/info/chrismcgee/sky/components/DateManager.java:113-161 | Every string naming a real date comes back from one step forward then one step back, including across the 2099/2000 wrap of the two-digit year. |
| DateManager.PreviousThenNext | src/info/chrismcgee/sky/components/DateManager.java:113-161 | Every string naming a real date comes back from one step back then one step forward, including across the 2000/2099 wrap. |
| DateManager.StepBackAtCentury | src/info/chrismcgee/sky/components/DateManager.java:155-161 | A string whose next day falls in 2100 or later ("12/31/99") still steps forward and back to itself. |
| DateManager.StepOnAtCentury | src/info/chrismcgee/sky/components/DateManager.java:113-119 | A string whose previous day falls before 2000 ("01/01/00") still steps back and forward to itself. |
| DateManager.WeekDelta | src/info/chrismcgee/sky/components/DateManager.java:284 | The offset back to the week's start is 0-6 and lands on a Sunday (weekday value 7). |
| DateManager.WeekStart | src/info/chrismcgee/sky/components/DateManager.java:284-287 | The week's Sunday is at most six days before the date, and not after it. |
| DateManager.WeekStartUnique | src/info/chrismcgee/sky/components/DateManager.java:278-299 | Only one Sunday-to-Saturday week contains a date. |
| DateManager.GetWeek | src/info/chrismcgee/sky/components/DateManager.java:278-299 | Returns two days: the Sunday starting the date's week, and the Saturday six days later. The date lies between them. The array is new. |
| DateManager.GetFullWeek | src/info/chrismcgee/sky/components/DateManager.java:308-325 | Returns seven consecutive days starting with the week's Sunday; the date is one of them. The array is new. |
| DateManager.GetDateRange | src/info/chrismcgee/sky/components/DateManager.java:229-246 | Returns every day from start to end inclusive, in order. The length is the difference plus one, or zero when the end comes first. A day is in the result exactly when it lies in the range. |
| DateManager.Comparators.IsOnHoldDate | src/info/chrismcgee/sky/components/DateManager.java:254-257 | Stores the argument in the hold comparator. The answer is true exactly when the argument is 9999-12-31. |
| DateManager.Comparators.IsProofingDate | src/info/chrismcgee/sky/components/DateManager.java:265-268 | Stores the argument in the proof comparator. The answer is true exactly when the argument is 9999-12-30. |
| DateManager.SentinelsDistinct | src/info/chrismcgee/sky/components/DateManager.java:19-20 | HOLD_DATE is the day after PROOF_DATE, so no date is both. Every date a display string names comes before both. |
| Calendar.EpochDayToCivil | src/info/chrismcgee/sky/components/DateManager.java:74-76 | Day numbers and valid calendar dates are in one-to-one correspondence. |
| Calendar.DayOfWeek | src/info/chrismcgee/sky/components/DateManager.java:284 | The weekday value is 1-7 with Monday = 1; it is 7 exactly on Sundays. |
| Calendar.TomorrowIsNextDay | src/info/chrismcgee/sky/components/DateManager.java:115 | `plusDays(1)` moves to the next calendar date. |
| Calendar.YesterdayIsPreviousDay | src/info/chrismcgee/sky/components/DateManager.java:157 | `minusDays(1)` moves to the previous calendar date. |
| Calendar.StepsUndo | src/info/chrismcgee/sky/components/DateManager.java:113-161 | The next and previous calendar dates undo each other. |
| Beans.CompletedStamp | src/info/chrismcgee/sky/tables/OrderDetailManager.java:335 | The stamp is set exactly when the box is checked, and it is then the current time. |
| OrderDetailManager.Completions | src/info/chrismcgee/sky/tables/OrderDetailManager.java:352-363 | One completion flag per sibling, in list order: whether its `itemCompleted` is set. |
| OrderDetailManager.ScanSiblings | src/info/chrismcgee/sky/tables/OrderDetailManager.java:346-363 | Reading only, the scan ends with these flags. `mixed` means some sibling's completion differs from the new state. `allChecked` means the box is checked and every sibling is complete. `noneChecked` means the box is cleared and no sibling is complete. |
| OrderDetailManager.ExactlyOneVerdict | src/info/chrismcgee/sky/tables/OrderDetailManager.java:347-363 | Exactly one of `mixed`, `allChecked` and `noneChecked` holds. |
| OrderDetailManager.ParentFollowsAllChecked | src/info/chrismcgee/sky/tables/OrderDetailManager.java:365-372 | A cleared box never yields `allChecked`. `noneChecked` excludes `allChecked`. `allChecked` holds exactly when the box is checked and nothing is mixed. |
| OrderDetailManager.OrderDetailCheckboxChanged | src/info/chrismcgee/sky/tables/OrderDetailManager.java:330-373 | The toggled item gets the new stamp and no other sibling's stamp changes. The job's checkbox becomes true exactly when the box is checked and every item in the job's list is complete. Only that checkbox changes. |
| JobManager.DetailIds | src/info/chrismcgee/sky/tables/JobManager.java:709-714 | The ids of the job's line items, in list order. |
| JobManager.CascadeSetsBoxes | src/info/chrismcgee/sky/tables/JobManager.java:709-717 | After the cascade, every listed line item's box equals the job's new state. Every other box is unchanged. |
| JobManager.CascadeFiresChanges | src/info/chrismcgee/sky/tables/JobManager.java:714-716 | A box is reported as changed exactly when it is listed and did not already show the new state. Each is reported once, even if listed twice. |
| JobManager.JobCheckboxChanged | src/info/chrismcgee/sky/tables/JobManager.java:696-719 | The job's `jobCompleted` becomes the new stamp. The boxes and the reported changes are those of the cascade over the job's line items, in list order. |
| JobManager.HeadsAreOpeningRows | src/info/chrismcgee/sky/tables/JobManager.java:320-354 | A row opens a job exactly when its job id differs from the previous row's ("" before the first row). Jobs are listed in the order of their opening rows. |
| JobManager.FirstRowOpens | src/info/chrismcgee/sky/tables/JobManager.java:320-339 | The first row opens the first job unless its job id is "". |
| JobManager.LastRowInLastJob | src/info/chrismcgee/sky/tables/JobManager.java:339-342 | The id remembered after a row is that of the last job opened, or "" when none has opened. |
| JobManager.AdjacentJobsDiffer | src/info/chrismcgee/sky/tables/JobManager.java:335-342 | Consecutive jobs have different ids, so a run of equal ids yields one job. |
| JobManager.RepeatedIdOpensSecondJob | src/info/chrismcgee/sky/tables/JobManager.java:335-342 | Rows with ids A, A, B, A yield jobs at rows 0, 2 and 3: a non-adjacent repeat opens a second job. |
| JobManager.NoJobsIffBlankIds | src/info/chrismcgee/sky/tables/JobManager.java:320-339 | No job is opened exactly when every row's id is "" (in particular, with no rows). |
| JobManager.DetailsFor | src/info/chrismcgee/sky/tables/JobManager.java:345 | A job's line items are those stored under its id, or none. |
| JobManager.IncompleteIsFilter | src/info/chrismcgee/sky/tables/JobManager.java:356-359 | A job is in the incomplete list exactly when it is in the list of all jobs and has no completion stamp. |
| JobManager.IncompleteKeepsOrder | src/info/chrismcgee/sky/tables/JobManager.java:356-359 | The incomplete list keeps list order. Its t-th job is the job at the t-th unstamped position. Those positions increase, and no unstamped position is skipped. |
| JobManager.GroupRows | src/info/chrismcgee/sky/tables/JobManager.java:317-361 | There is one job per opening row, built from that row's columns and the line items of its id. The second list is the incomplete filter of the first. |
| JobManager.GetAllJobsByDate | src/info/chrismcgee/sky/tables/JobManager.java:293-381 | Returns two lists: all jobs as grouped, then the incomplete ones. |
| JobManager.GetJobsByDate | src/info/chrismcgee/sky/tables/JobManager.java:390-467 | Fails with an index error exactly when no job is opened (reading the first job at line 455). Otherwise it returns the grouped jobs. |
| PrintType.Value | src/info/chrismcgee/sky/enums/PrintType.java:26-28 | Every print type has a non-empty label. |
| PrintType.FromLabel | src/info/chrismcgee/sky/enums/PrintType.java:45-58 | A label decodes to the type carrying it. The result is null (`None`) exactly when no type carries the string. |
| PrintType.LabelRoundTrip | src/info/chrismcgee/sky/enums/PrintType.java:45-58 | Every type's label decodes back to that type. |
| PrintType.FromCode | src/info/chrismcgee/sky/enums/PrintType.java:66-79 | Any code outside 0-6 decodes to PAD. |
| PrintType.CodeTable | src/info/chrismcgee/sky/enums/PrintType.java:70-76 | Codes 0-6 decode to SCREEN_CUPS, PAD, HOTSTAMP, OFFSET_CUPS, OFFSET_NAPKINS, DIGITAL, SCREEN_NAPKINS. |
| PrintType.IntValue | src/info/chrismcgee/sky/enums/PrintType.java:87-100 | Every type's code is in 0-6 and decodes back to that type. |
| PrintType.CodeRoundTrip | src/info/chrismcgee/sky/enums/PrintType.java:66-100 | Decoding then encoding gives back every code 0-6, and 1 for any other integer. |
| PrintType.IntValueInjective | src/info/chrismcgee/sky/enums/PrintType.java:87-100 | Distinct types have distinct codes. |
| PrintingCompany.Value | src/info/chrismcgee/sky/enums/PrintingCompany.java:24-26 | Every company's code is in 0-2. |
| PrintingCompany.FromCode | src/info/chrismcgee/sky/enums/PrintingCompany.java:43-51 | Decoding is total. Any code other than 1 or 2 gives AMERICAN_ACCENTS. The decoded company's code equals the input exactly for 0-2. |
| PrintingCompany.CodeRoundTrip | src/info/chrismcgee/sky/enums/PrintingCompany.java:43-51 | Every company decodes back from its own code. |
| PrintingCompany.ValueInjective | src/info/chrismcgee/sky/enums/PrintingCompany.java:5 | Distinct companies have distinct codes. |
| ViewType.ViewName | src/info/chrismcgee/sky/scheduling/ui/views/ViewType.java:9-12 | Every view has a non-empty name: "homeView", "firstView", "secondView", "inProduction". |
| ViewType.IsStateful | src/info/chrismcgee/sky/scheduling/ui/views/ViewType.java:36-38 | No declared view is stateful. |
| ViewType.NamesDistinct | src/info/chrismcgee/sky/scheduling/ui/views/HomeView.java:19 | The four view names are pairwise distinct (also FirstView.java:23, SecondView.java:19, TreeTableView.java:30). |
| ViewType.GetByViewName | src/info/chrismcgee/sky/scheduling/ui/views/ViewType.java:52-62 | The result's name equals the argument. The result is the first match in declaration order, and null (`None`) exactly when no view has the name. Every view is found by its own name. |

## Left out

- Month and year stepping (`getNextMonth`, `getNextYear`, `getPreviousMonth`, `getPreviousYear`): these are java.time's day-of-month clamping, not this repository's logic.
- Conversions through `java.sql.Date`, `java.util.Date` and the system time zone (`getSqlDate`, `localDateToSqlDate`, `getDisplayDate(Date)`, `getSqlFormattedDate`, `jDateToString`, `stringToJDate`, `usDateStringToSqlDate`, and the wrapping inside `getDateRange`): dates are epoch days throughout.
- `getToday` and the `today`/comparator initial values: `LocalDate.now()` is a clock, so it is a constructor parameter of `Comparators`.
- DateManager.GetDateRange: does not model the Java `int` loop counter. The counter would overflow for ranges longer than 2^31 - 1 days.
- LocalDate's year range (±999999999): days are unbounded integers. The sentinel dates and every display string lie far inside that range.
- A `null` string passed to `getLocalDate` or `getPrintType(String)` (a NullPointerException in Java): strings are never null here.
- SQL, connections and result sets: the queries are replaced by the sequence of joined rows and the map of line items per job id. An `SQLException` (the `null` return of both grouping methods) is not modelled.
- JobManager.GetJobsByDate: also builds the incomplete list through the shared grouping loop and discards it. The Java method does not build that list, and nothing observable differs.
- Logging throughout, and the bean getters and setters beyond the fields the handlers and the grouping read.
- UI wiring: the Vaadin tree table, its checkbox components and their listeners are reduced to a map of booleans. No listener on a line-item box is modelled, so `jobCheckboxChanged` leaves the line items' own `itemCompleted` stamps alone. It returns the ids whose box changed value, which is what such a listener would be told.
- OrderDetailManager.OrderDetailCheckboxChanged: requires the tree table to hold the row of the item's order. Without it, `getItem` returns null at OrderDetailManager.java:365-367 and Java throws a NullPointerException after the item's stamp is stored. That failure path is not modelled.
- JobManager.JobCheckboxChanged: requires the tree table to hold a row for every line item of the job. Without one, Java throws a NullPointerException at JobManager.java:714, after the job's stamp (line 706) and the boxes of earlier items were already set. The model does not capture that partial update.
- JobManager.GroupRows: takes the line items of a job id from one map, so two jobs opened by the same id (rows A, A, B, A) share the same `OrderDetail` objects. Java's `getRows` builds new beans on every call, so in Java those two jobs hold separate item objects. The model does not capture that separation: a later stamp written through one job is seen through the other.
- The mutable enum setters `PrintType.setValue` and `PrintingCompany.setValue`, and ViewType's view class and icon fields.
