# Repository copy scripts: the decision logic, modelled in Dafny

The repository is a set of Node scripts. Together they copy a GitHub repository and its
project board into a new repository of the same account:

- `index.js` creates the milestones and then the issues listed in a tab-separated sheet. It
  retries on GitHub's secondary rate limit.
- `project.js` shifts the project's dates and milestone due dates by a day offset. It then
  writes the sheet's columns into the project's fields.
- `subIssue.js` links the sheet's issues to their parent issues.
- `cleanIssues.js` strips the "Original issue by @..." header from every issue body.

This project models the deterministic layer underneath the network calls. Every request the
scripts send is either data given to the model, or data it returns:

- pages of project items come from a cursor-driven function;
- issue lists come from a page-number-driven function;
- issue ids come from a map;
- milestone and issue creations come from scripted outcome sequences;
- fetched bodies come from a function.

The loops of the source are methods with loop invariants. Each method is proved equal to a
specification function, and the properties the scripts rely on are lemmas about those
functions.

Modules:

- `Wrappers`: `Option` and `Result`.
- `Text`: JavaScript's `trim`, `split` and `join`, `toLowerCase` on ASCII, and decimal digits.
- `Seqs`: first-match search, flattening, and `Object.fromEntries`.
- `Calendar`: proleptic Gregorian day numbers, with day 0 = 1970-01-01.
- `ProjectTsv`: the sheet parser of `project.js`.
- `ProjectItems`: the item pagination of `project.js`.
- `ProjectDates`: `shiftDate`, the day offset, and the milestone due-date pass.
- `ProjectValues`: value cleaning and `preparedValue` with its option and iteration lookups.
- `ProjectSync`: `updateProjectFields`, including the reference rewrite and the field pass.
- `SubIssue`: the trimmed parser, `extractIssueNumber`, and the linking loop of `subIssue.js`.
- `IssueCopy`: the milestone map, the record mapping and the retry loop of `index.js`.
- `CleanIssues`: the block pattern, the body cleanup and the page loop of `cleanIssues.js`.

Where the written description of the scripts and the code differ, the model follows the code:

- The sheet parser of `project.js` trims header names but not cell values. It does not drop
  blank lines either: a blank line is a record whose first cell is "" and whose other cells
  are missing. Only the parser of `subIssue.js` trims cells.
- `extractIssueNumber` uses `/issues\/(\d+)/`. It reads the leftmost `issues/` that is
  followed by a digit, which is not always the first `issues/` in the string.
- A record without a `Title` matches the first item that has no issue content, because the
  comparison is `undefined === undefined`. Its number comes from the key `"undefined"` of
  `titleToNumberMap`.
- `new Date(baseDate)` is always truthy. An unparsable base date or start date therefore gives
  a NaN offset, not 0. `shiftDate` under a NaN offset returns the text `"NaN-NaN-NaN"`.

## Model

| member | source | states |
|---|---|---|
| ProjectTsv.RowOf | project.js:43-44 | a record has exactly one key per trimmed header |
| ProjectTsv.RowOfValue | project.js:44 | the value of header j is cell j, untrimmed, and missing when the line has fewer cells |
| ProjectTsv.Lines | project.js:40 | the trimmed file always has at least one line, the header line |
| ProjectTsv.ParseTsvShape | project.js:38-47 | as many records as lines after the first; every record's keys are the trimmed headers |
| ProjectTsv.ParseTsvCell | project.js:43-44 | a record's value for a header is that column's cell as written, not trimmed |
| Text.JoinSplit | project.js:40-43 | splitting on a separator loses nothing: joining the parts gives the text back |
| Text.SplitJoin | project.js:40-43 | splitting the join of separator-free parts gives the parts back |
| Text.Split | project.js:43 | there is at least one part, and no part contains the separator |
| Text.TrimIdempotent | project.js:325 | trimming twice equals trimming once |
| Text.TrimEmptyIffBlank | project.js:325 | a value trims to "" exactly when it is all whitespace |
| Text.TrimPadded | project.js:152 | trim removes exactly the surrounding whitespace around a non-blank core |
| Text.NatToString | project.js:300 | the decimal text of n is digits with value n, and has no leading zero |
| Text.DigitRunIs | subIssue.js:46 | the maximal digit run at a position is exactly the digits written there |
| ProjectItems.GetProjectItems | project.js:70-105 | the first request has no cursor; each later request uses the previous page's `endCursor`; requests stop at the first page without a next page; the result is all pages' nodes, in order |
| ProjectItems.FetchNextPage | project.js:97-101 | one iteration: one more cursor, the page's nodes appended, and `hasNextPage` and `after` taken from the page |
| ProjectItems.ItemsOfPagesSplit | project.js:99 | the items of m+n pages are those of the first m pages, then those of the next n |
| ProjectItems.SinglePage | project.js:97-99 | a listing whose first page is the last yields exactly that page's nodes |
| ProjectItems.ItemsOfPagesMembers | project.js:99 | an item is returned exactly when some fetched page holds it |
| Calendar.CivilFromDays | project.js:225-228 | every day number is the day number of a valid calendar date |
| Calendar.CivilOfDayNumber | project.js:225-228 | converting a valid date to its day number and back gives the date |
| Calendar.DayNumberInjective | project.js:225-228 | two valid dates with the same day number are equal |
| Calendar.DayNumberUnique | project.js:225-228 | at most one valid date has a given day number |
| Calendar.DateOfDayExists | project.js:225-228 | some valid date has any given day number |
| Calendar.DaysBeforeNextYear | project.js:225-228 | a year adds 365 days, or 366 in a Gregorian leap year |
| Calendar.DaysBeforeYearCycle | project.js:225-228 | the calendar repeats every 400 years of 146097 days |
| Calendar.DaysBeforeYearMonotone | project.js:225-228 | later years start on later days |
| Calendar.DayNumberInYear | project.js:225-228 | a date's day number lies within its year |
| Calendar.SameDayNumberSameYear | project.js:225-228 | valid dates with one day number share the year |
| Calendar.DaysInMonth | project.js:225 | every month has 28 to 31 days |
| Calendar.YearInCycle | project.js:226 | a day of a 400-year cycle falls in exactly one year of it |
| Calendar.MonthOfYear | project.js:227 | a day of a year falls in exactly one month of it |
| ProjectDates.ParseDate | project.js:222-223 | the model accepts exactly `YYYY-MM-DD` and `YYYY-MM-DDTHH:MM:SSZ` with month 1..12, day 1..31 and a time of day within 23:59:59 or exactly 24:00:00; it reads the fields as written, and 24:00:00 as midnight of the next day |
| ProjectDates.ParseDateTimeValue | project.js:222-223 | a parsed date-time's time value is the written date's day number in days plus the written time of day, 24:00:00 included |
| ProjectDates.ShiftDate | project.js:219-230 | null exactly when the input does not parse; under a NaN offset the text is "NaN-NaN-NaN" |
| ProjectDates.ShiftDateMeaning | project.js:219-230 | the result is `YYYY-MM-DD` of the one valid date n days after the parsed date |
| ProjectDates.ShiftMoment | project.js:225 | the shifted date is valid, and its day number is the parsed day number plus n |
| ProjectDates.FormatShape | project.js:226-229 | the text is ten characters `YYYY-MM-DD` whose fields read back as the date's year, month and day |
| ProjectDates.FormatEnds | project.js:226-229 | the template text begins with a digit or the year's minus sign and ends with a digit |
| ProjectDates.ParseFormat | project.js:222-229 | a formatted date parses back to that date at midnight |
| ProjectDates.ShiftCompose | project.js:219-230 | shifting by a and then by b equals shifting by a+b |
| ProjectDates.ShiftTwice | project.js:219-230 | a text that parses to the day a days after another's shifts by b to the same text as the other shifted by a+b |
| ProjectDates.ShiftByZero | project.js:219-230 | a zero shift returns a formatted date unchanged |
| ProjectDates.ShiftExample | project.js:219-230 | 2024-01-10 shifted by 30 days is 2024-02-09 |
| ProjectDates.ShiftEndOfDayExample | project.js:219-230 | 2024-01-09T24:00:00Z shifted by 30 days is 2024-02-09, the end of a day counting as the next day |
| ProjectDates.ShiftSameDay | project.js:225 | two dates on the same shifted day give the same text, whatever their time of day |
| ProjectDates.DayOffset | project.js:264-270 | the offset is a day count exactly when the base date and the anchor both parse, and NaN otherwise |
| ProjectDates.DayOffsetAtMidnight | project.js:269 | for a date-only base, the offset is the floor of the millisecond difference over a day: the difference of day numbers |
| ProjectDates.ShiftAnchorToBase | project.js:264-270 | shifting the anchor date by the offset lands on the base date |
| ProjectDates.DayOffsetExample | project.js:269 | from anchor 2024-01-10 to base 2024-02-09 is 30 days |
| ProjectDates.UpdateMilestoneDates | project.js:239-252 | the loop sends exactly the milestone updates of the specification, in listing order |
| ProjectDates.MilestoneUpdatesExactly | project.js:239-252 | an update is sent exactly for a milestone with a `due_on` that shifts; it carries that number and the shifted date with "T00:00:00Z" |
| ProjectDates.MilestoneUntouched | project.js:240-242 | a milestone without `due_on`, or with one that does not shift, gets no update |
| ProjectDates.ParseFormatMidnight | project.js:248 | a shifted due date with "T00:00:00Z" parses back to that day at midnight |
| ProjectDates.MilestoneExample | project.js:239-252 | a due date of 2024-01-15 moved by 30 days is sent as 2024-02-14T00:00:00Z |
| ProjectValues.StripQuotes | project.js:152 | one leading quote is dropped, then one trailing quote of what remains |
| ProjectValues.StripQuotesQuoted | project.js:152 | one pair of surrounding quotes is removed |
| ProjectValues.StripQuotesUnquoted | project.js:152 | text without surrounding quotes is unchanged |
| ProjectValues.CleanValuePadded | project.js:151-152 | a quoted value with padding cleans to the text inside the quotes |
| ProjectValues.CleanValuePlain | project.js:151-152 | a trimmed value without quotes cleans to itself |
| ProjectValues.ChoiceId | project.js:193-216 | no id exactly when no entry has that exact name; otherwise the id of the first such entry |
| ProjectValues.PrepareValue | project.js:149-164 | preparation fails exactly for a single-select or iteration field with no entry of that name, and the error names the cleaned value |
| ProjectValues.PrepareValueMeaning | project.js:153-164 | NUMBER, DATE and TEXT wrap the cleaned value; SINGLE_SELECT and ITERATION carry the id of the first exact match; any other type gives text for the two text keys and the bare value otherwise |
| ProjectValues.PrepareQuotedOption | project.js:151-159 | a quoted, padded option name selects the first option of exactly that name |
| ProjectValues.FieldMap | project.js:259 | the fields are keyed by their trimmed names |
| ProjectValues.FieldMapLast | project.js:259 | a field's trimmed name maps to the last field with that name |
| ProjectSync.TitleToNumber | project.js:260-262 | the keys are exactly the items' titles, "undefined" standing for an item without content |
| ProjectSync.NumberForLast | project.js:260-262 | a title's number is the LAST item with that title's number, and no number when no item has it |
| ProjectSync.ItemFor | project.js:275 | no item exactly when no item has the record's title; otherwise the first item with it |
| ProjectSync.DiffDaysFirst | project.js:264-270 | the offset is 0 when no record has `Starts`; otherwise it is the offset from the first record that has `Starts` |
| ProjectSync.SelectedHeaders | project.js:281-290 | a column is processed exactly when its trimmed, lower-cased name is one of starts, due, type, phase and sprint |
| ProjectSync.TitleHeaderNotSelected | project.js:285 | the header "Title" is not processed |
| ProjectSync.IssueUrl | project.js:300 | the rewritten link starts with the GitHub prefix |
| ProjectSync.RewrittenIdempotent | project.js:291-302 | rewriting a cell twice equals rewriting it once |
| ProjectSync.RewriteRowEffect | project.js:283-302 | the rewrite keeps the record's keys; only selected columns holding a GitHub link change, and only when the title has a truthy number |
| ProjectSync.RewriteKeepsTitle | project.js:283-302 | the rewrite never changes the Title |
| ProjectSync.FieldEvent | project.js:313-359 | one column gives one event about that column; an update targets the record's item |
| ProjectSync.FieldEventsPerColumn | project.js:305-359 | the field pass gives exactly one event per selected column, in header order, so a failure never hides a later column |
| ProjectSync.RowWithoutItem | project.js:275-279 | a record whose title matches no item gives one warning and no change |
| ProjectSync.RowWithItem | project.js:275-353 | a matched record's updates all go to the first item with its title |
| ProjectSync.UpdateNeedsFieldAndValue | project.js:315-331 | a column is reported as field-not-found exactly when no field has its trimmed name; an update needs such a field and a non-blank value, and goes to that field |
| ProjectSync.FieldEventForField | project.js:315-359 | with a field of the trimmed name: a missing or blank value is reported empty, and only then; a non-blank value of a non-date field is sent to that field as prepared, or reported with the preparation error; a non-blank date that shifts is sent as the shifted date |
| ProjectSync.DateFieldShifted | project.js:333-341 | a date field's update carries the shifted date; a date that does not parse is skipped as invalid |
| ProjectSync.DateFieldUpdate | project.js:333-347 | a date field's update carries the shifted date exactly |
| ProjectSync.DateFieldInvalid | project.js:333-340 | a non-blank date value that does not parse is skipped as invalid |
| ProjectSync.ShiftedDateIsClean | project.js:151-152 | cleaning a shifted date leaves it unchanged |
| ProjectSync.RewriteReferences | project.js:283-303 | the first header loop leaves the record exactly as the specification of the rewrite says |
| ProjectSync.FieldPass | project.js:305-360 | the second header loop produces exactly the field events of the specification |
| ProjectSync.SyncRecord | project.js:274-361 | one record: a warning when no item matches; otherwise the rewrite, then the field pass |
| ProjectSync.SyncRecords | project.js:274-361 | every record in file order: the events are the records' events joined, and each record is as the rewrite left it |
| ProjectSync.UpdateProjectFields | project.js:255-362 | the milestone updates use the pass offset, then every record is processed in order |
| Seqs.FindFirst | project.js:265-275 | `find`: the first element that satisfies the test, and none exactly when no element does |
| Seqs.FromEntriesLast | project.js:259-262 | with `Object.fromEntries`, the last entry for a key wins |
| Seqs.FromEntriesMapValues | subIssue.js:40 | mapping the values of the entries maps the values of the resulting object |
| Seqs.FlatMapAppend | subIssue.js:95-129 | the requests of two sheets in a row are those of each sheet, joined |
| SubIssue.ParseTrimmedTsv | subIssue.js:34-42 | one record per line after the header line |
| SubIssue.ParseTrimmedTsvIsTrimmed | subIssue.js:34-42 | a record has the same keys as the one from the untrimmed parser, and every value trimmed |
| SubIssue.FirstIssueRef | subIssue.js:46 | the regex match is the leftmost "issues/" followed by a digit |
| SubIssue.ExtractIssueNumber | subIssue.js:44-48 | null for a missing or empty link and for one with no "issues/" followed by digits; otherwise the value of the digit run after the leftmost such "issues/" |
| SubIssue.NoRefInPrefix | subIssue.js:46 | a prefix without "issues/" holds no match |
| SubIssue.RefAfterPrefix | subIssue.js:46-47 | the "issues/n" written after such a prefix is the leftmost match, and its value is n |
| SubIssue.ExtractFromIssuePath | subIssue.js:44-48 | a link with "issues/n" after a prefix without "issues/" gives n |
| SubIssue.LinkRecordCalls | subIssue.js:95-122 | a record sends requests exactly when it has a URL and two usable numbers; the child is looked up first; the link request comes after both lookups and makes the parent the issue and the child the sub-issue |
| SubIssue.LinkRecordOutcome | subIssue.js:95-128 | each skip is reported as such; with a URL and two usable numbers the link request is sent exactly when both ids are found; a missing child id stops after one lookup and a missing parent id after two, both as a failed lookup; the record is linked exactly when both ids are found and the mutation succeeds |
| SubIssue.MissingUrlSkipped | subIssue.js:96-99 | a record without a URL sends nothing |
| SubIssue.RecordsCallsAppend | subIssue.js:95-129 | what one record sends depends on that record alone, so a failure never stops later records |
| SubIssue.LinkOne | subIssue.js:96-128 | the loop body sends exactly the requests of the specification and reaches its outcome |
| SubIssue.LinkRecords | subIssue.js:95-129 | every record in file order: the requests are the records' requests joined, with one outcome per record |
| IssueCopy.MilestoneMapKeys | index.js:177-198 | a title is in the map exactly when the creation of some milestone with that title succeeded |
| IssueCopy.MilestoneMapLast | index.js:191 | a title maps to the number from the last successful creation of that title |
| IssueCopy.MilestoneMapValue | index.js:189-191 | the number under a title was given to some created milestone with that title |
| IssueCopy.MilestoneMapCreated | index.js:175-200 | the built map holds exactly the titles of created milestones, each with the number one of them received |
| IssueCopy.CopyMilestones | index.js:175-200 | one request per milestone, in order; the map is the specification's map |
| IssueCopy.FirstOwnerEnd | index.js:227 | the lazy owner group ends at the first "/" after which a repository group and the rest of the pattern match |
| IssueCopy.FirstRepoEnd | index.js:227 | the lazy repository group ends at the first "/issues/" followed by a digit |
| IssueCopy.FirstMatch | index.js:227 | the match starts at the leftmost position where the pattern matches |
| IssueCopy.MatchIssueUrl | index.js:227-229 | there is no match exactly when the pattern matches at no position |
| IssueCopy.MatchCanonicalUrl | index.js:227-229 | `https://github.com/owner/repo/issues/n...` gives owner, repo and n |
| IssueCopy.MatchLaidOut | index.js:227-229 | a link laid out as the pattern gives its owner, repository and issue number |
| IssueCopy.RequestMeaning | index.js:216-244 | the title is trimmed; a non-empty body means the trimmed URL matched an issue link and fetching that issue returned exactly this body; the Labels cell, uncut and untrimmed, is the only label, and there is none exactly when the cell is empty or missing |
| IssueCopy.AssigneesClean | index.js:221-223 | every assignee is trimmed and contains no comma |
| IssueCopy.LabelsNotSplit | index.js:219 | a Labels cell with commas stays one label |
| IssueCopy.RequestMilestone | index.js:256-258 | with the milestone map, a milestone number is sent exactly when some origin milestone titled like the trimmed cell was created, and it is the number such a milestone received |
| IssueCopy.StopAt | index.js:262-284 | the call that ends the loop is the first one that is not a secondary rate limit |
| IssueCopy.BackoffsTotal | index.js:276-277 | each wait is 60 s longer than the one before; n waits take 30000·n·(n+1) ms in total |
| IssueCopy.BackoffsSum | index.js:276-277 | the total waiting time of n retries is 30000·n·(n+1) ms |
| IssueCopy.CreateWithRetry | index.js:260-284 | the identical request is sent until a call is not a secondary rate limit; one wait fewer than requests; created exactly when that last call succeeded |
| IssueCopy.RateLimitMessage | index.js:266-269 | a 403 whose message is GitHub's "You have exceeded a secondary rate limit" counts as a secondary rate limit |
| IssueCopy.RetryOnceThenCreated | index.js:262-278 | a rate limit and then a success: two identical requests, one 60 s wait, created |
| IssueCopy.OtherFailureNotRetried | index.js:267-282 | any other failure sends one request, waits never and creates nothing |
| IssueCopy.CopyMeaning | index.js:260-284 | a record's issue is created exactly when the first call that is not a secondary rate limit succeeds; every request before the last hit that limit; r retries wait 30000·r·(r+1) ms in total |
| IssueCopy.CopyIssue | index.js:216-284 | the loop body sends the requests and waits of the specification |
| IssueCopy.CopyIssuesFromTsv | index.js:207-286 | every record in order, each with its own retry script |
| CleanIssues.WordRun | cleanIssues.js:18 | the word run stays within the text |
| CleanIssues.WordRunMaximal | cleanIssues.js:18 | `\w+` takes every word character from that point on, and stops at the first other character |
| CleanIssues.FirstBlock | cleanIssues.js:17-40 | a found position holds a block |
| CleanIssues.FirstBlockLeftmost | cleanIssues.js:40 | no block starts before the one found, and none at all when none is found |
| CleanIssues.CleanBody | cleanIssues.js:40 | the cleaned body is never longer |
| CleanIssues.CleanBodyCutsFirstBlock | cleanIssues.js:17-40 | only the leftmost block is cut; the text before and after it is kept; without a block the body is unchanged |
| CleanIssues.CleanBodyChanges | cleanIssues.js:40-42 | the body changes exactly when a block occurs in it |
| CleanIssues.CleanWrittenBlock | cleanIssues.js:17-40 | a header `Original issue by @user on <stamp>\n\n---`, with or without its newline, written after text without `@`, is removed and nothing else is |
| CleanIssues.CleanLaidOut | cleanIssues.js:17-40 | the block laid out after a prefix is cut out and the rest kept |
| CleanIssues.BlockHead | cleanIssues.js:17-18 | in a written header the lead, the user name and ` on ` stand where the pattern expects them |
| CleanIssues.BlockTail | cleanIssues.js:17-18 | in a written header the timestamp, the `\n\n---` rule and the optional newline stand where the pattern expects them, and the rest of the body follows |
| CleanIssues.BlockLaidOut | cleanIssues.js:17-18 | a written header matches the pattern, with its optional newline counted |
| CleanIssues.FirstBlockIs | cleanIssues.js:40 | a block with none before it is the one found |
| CleanIssues.WordRunOf | cleanIssues.js:18 | the word run of a written user name is exactly the name |
| CleanIssues.UpdateForExactly | cleanIssues.js:36-52 | an update for an issue is exactly the one that issue sends |
| CleanIssues.PageUpdatesExactly | cleanIssues.js:35-53 | a page's updates are exactly those of its issues |
| CleanIssues.PageUpdateSource | cleanIssues.js:35-53 | every update of a page comes from one of its issues |
| CleanIssues.PageUpdateFrom | cleanIssues.js:35-53 | every issue's update is among its page's updates |
| CleanIssues.PageUpdatesStep | cleanIssues.js:35-53 | the issues are handled in listing order: one more issue appends its own update, if any, after those of the issues before it |
| CleanIssues.CleanPage | cleanIssues.js:35-53 | the inner loop sends the page's updates in issue order |
| CleanIssues.CleanNextPage | cleanIssues.js:25-55 | one iteration adds the updates of the next page |
| CleanIssues.CleanAllIssues | cleanIssues.js:20-57 | pages 1, 2, ... are read until the first empty page; every page before it held issues; the updates are those of all pages read, in order |

## Left out

- Network calls are not modelled. They appear only as data: item pages, issue pages, issue ids,
  fetched bodies, field snapshots, and scripted outcomes of milestone creation, issue creation
  and linking.
- The query texts, response shapes and `per_page`/`first` page sizes are not modelled. Items
  per page and issues per page are whatever the given pages hold.
- The field mutations' errors in `project.js` are not modelled. They are caught and logged
  (project.js:354-359), so a failed mutation does not stop the pass. The model records what
  is sent and why each column is skipped.
- The abort on a failed `updateMilestone` is not modelled. That call is not inside a `try`
  (project.js:244-249), so its failure rejects `updateMilestoneDates` before the record loop
  (project.js:272), and the top-level call has no handler (project.js:364-367). The model
  assumes every milestone update succeeds.
- The abort on a failed `issues.update` in `cleanIssues.js` is not modelled. The call is not
  caught (cleanIssues.js:43-48), so its failure ends the whole cleanup, and the error is only
  logged (cleanIssues.js:59). The model assumes every update succeeds.
- `getUserProjectId` and `getProjectFields` are not modelled; their results are inputs. So
  are the open milestones `updateMilestoneDates` lists.
- Git and wiki mirroring (index.js:288-303), `copySettings` and branch protection, and
  `copyLabels` are not modelled. They are shell, file system or straight REST passthrough.
- runAll.js is not modelled. It is a prompt checklist that runs the other scripts.
- Argument and prompt handling and the `GITHUB_TOKEN` checks are not modelled.
- Console output, `err.message` texts and the wait in `delay` are not modelled. Waits are
  recorded as durations.
- ProjectValues.PrepareValue: a NUMBER payload keeps the cleaned text, not the
  `parseFloat` result, because floating point is not modelled. The code does not reject
  non-numeric text; it sends NaN.
- ProjectDates.ParseDate: accepts only the two ISO forms the sheets and `due_on` use, with
  the end-of-day time 24:00:00 of the second. Other formats `new Date` accepts (fractional
  seconds, offsets other than `Z`, local times, other layouts) count as unparsable. The date is read in UTC. The local-time
  behaviour of `getDate`/`setDate` and the ±8.64e15 ms range of a JavaScript time value are
  not modelled.
- ProjectDates.ShiftCompose: stated only when the date after the first shift has a year in
  1000..9999. ProjectDates.ShiftByZero and ProjectDates.ShiftAnchorToBase likewise need such
  a year for the date they start from, and FormatShape, ParseFormat and ParseFormatMidnight
  for the date they format. `getFullYear` is written without padding and `ParseDate` accepts
  only a four-digit year, so a date outside those years is written in a form that does not
  parse back, and nothing is promised about shifting it again.
- ProjectItems.GetProjectItems: requires that some page reports no next page. The source
  would loop forever otherwise.
- IssueCopy.CreateWithRetry: requires that the script has a call that is not a secondary
  rate limit. The source retries forever otherwise and has no attempt ceiling.
- CleanIssues.CleanAllIssues: requires that some page is empty, for the same reason. It
  returns the number of non-empty pages, from which the requested pages 1 .. pages+1 follow,
  not the list of requests.
- IssueCopy.CopyMilestones: the outcome of each `createMilestone` call is an input. The
  request's `owner`/`repo` are the fixed target and are not modelled.
- The `csv-parse` reader of `index.js` is not modelled. Records are given as parsed rows.
- Issue numbers are unbounded naturals. `parseInt` and `Number` precision limits are not
  modelled.
