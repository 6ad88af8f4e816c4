# KAIST timetable helper: a verified model of its core

The repository is a KAIST course-planning tool with four parts:

- **`otl_crawl/otl_crawling.py`** crawls course reviews from the OTL course dictionary. It resumes from its previous output, skips courses it already has and saves a checkpoint every few new courses.
- **`otl_crawl/json_convert.py`** reshapes the crawled JSON: JSON Lines merging, merging by data kind, vector-store flattening, and splitting in half.
- **A React front end** lets a student pick subjects for a weekly timetable. It parses catalogue schedule and credit strings, searches, detects time conflicts and keeps conflict-free selections. It also makes rule-based suggestions and chats with an assistant that recommends courses by code.
- **An Express server (`server.js`)** forwards the chat to a language model and extracts the recommended course codes from the reply.

This project models those cores in Dafny and proves what they promise. There is one module per source file, with two shared helper modules:

- `Common`: Option/Result, filtering, subsequences, de-duplication, sums.
- `Text`: JavaScript and Python white space, `trim`/`strip`, `includes`, `split`, `join`, decimal rendering and parsing.

The modules:

- `CodeScan`: the course-code regular expressions as hand-written anchored matchers, plus the global `exec` loop.
- `ChatServer`: `server.js`.
- `AiMakerPage`: `src/pages/AiMakerPage.tsx`.
- `SubjectUtils`: `src/utils/subjectUtils.ts`.
- `Catalog`: the `src/types/index.ts` records.
- `TimetableContext`, `UseTimetable`, `UseCredits`, `UseSubjectSearch`: the stores and hooks.
- `MainPage`, `AiSuggestPage`: the two pages.
- `ChatContext`: `src/contexts/ChatContext.tsx`.
- `TimetableView`: `src/components/timetable/Timetable.tsx`.
- `TimetableGrid`: `src/components/Timetable.tsx`.
- `OtlCrawling`, `JsonConvert`: the two Python scripts.

Where the source changes state in place, the model does too:

- The crawler object, the React stores and the page states are classes whose methods update their fields.
- The crawl loop, the review loop, the ratings loop, the regular-expression `exec` loops, `parseSchedule`, `getFilterOptions`, `hasSubjectConflict`, the greedy recommender and the converter loops are methods with loops.
- Each such method is proved equal to a specification function, and the properties are proved about those functions.

Inputs the model cannot compute are parameters:

- The browser is a sequence of course-unit outcomes.
- Each file is the value `json.load` returns for it; the saved file is the sequence of snapshots written.
- The language model's reply and the HTTP outcome are given.
- `Date.now()` is a number and the `Math.random` shuffle is a permutation.

## Model

| member | source | states |
|---|---|---|
| Common.UniqueProperties | server.js:186 | The `indexOf` de-duplication idiom yields a list without repeats, with exactly the input's elements, keeping input order, empty only for empty input |
| Common.UniqueIsDedup | src/utils/subjectUtils.ts:216-224 | The `indexOf` filter idiom and the "push unless already included" idiom compute the same list |
| Common.SumByPermutation | src/hooks/useCredits.ts:4 | A `reduce` sum does not depend on the order of the elements |
| Text.BlankIffTrimEmpty | src/pages/AiMakerPage.tsx:83 | The test `s.trim() === ''` holds exactly for strings made only of JavaScript white space |
| Text.PaddedReadsBack | src/utils/subjectUtils.ts:110 | A non-negative integer rendered with `padStart(2, '0')` has at least two digits (exactly two below 100) and reads back as itself |
| Text.JsNumber | src/utils/subjectUtils.ts:9 | A number read from a time field is never negative; that it is the digits' decimal value is `SubjectUtils.DigitsNumber` |
| Text.DropLeadingSpec | src/utils/subjectUtils.ts:7 | Trimming the front removes exactly a white-space prefix and stops at the first other character |
| Text.DropTrailingSpec | src/utils/subjectUtils.ts:7 | Trimming the end removes exactly a white-space suffix and stops at the last other character |
| SubjectUtils.ParseTimeOfDigits | src/utils/subjectUtils.ts:6-11 | `"h:m"` with decimal fields parses to h*60+m |
| SubjectUtils.DigitsNumber | src/utils/subjectUtils.ts:9 | `Number` of a decimal digit string is its decimal value |
| SubjectUtils.ParseBlankTime | src/utils/subjectUtils.ts:7 | A blank time string parses to 0 |
| SubjectUtils.FormatShape | src/utils/subjectUtils.ts:107-111 | A non-negative time is written as a zero-padded hour field of at least two digits, `:`, and a two-digit minute field holding m/60 and m%60 |
| SubjectUtils.ParseFormatRoundTrip | src/utils/subjectUtils.ts:6-11 | Parsing a formatted non-negative time gives the time back |
| SubjectUtils.DayRoundTrip | src/utils/subjectUtils.ts:114-117 | Each day 0..6 has a non-empty character that reads back as that day |
| SubjectUtils.DayCharsDistinct | src/utils/subjectUtils.ts:28-30 | The seven day characters are distinct, so the day map is a function |
| SubjectUtils.FirstDaySpec | src/utils/subjectUtils.ts:24-31 | A line has a day exactly when it holds a day character; the day comes from the first such character and is in 0..6 |
| SubjectUtils.ClockAtBounds | src/utils/subjectUtils.ts:34 | A `\d{1,2}:\d{2}` clock is at most 99:99 |
| SubjectUtils.FirstTimeRangeSpec | src/utils/subjectUtils.ts:34-43 | A line has a time range exactly when the range pattern matches somewhere; the leftmost match decides, and both times are at most 99:99 |
| SubjectUtils.ParseSchedule | src/utils/subjectUtils.ts:14-49 | The line loop returns the specified schedule list |
| SubjectUtils.ScheduleOfLineSpec | src/utils/subjectUtils.ts:22-45 | A line yields a schedule exactly when it has a day character and a time range; the day comes from the first character and the times from the leftmost range |
| SubjectUtils.LineSchedulesBound | src/utils/subjectUtils.ts:22-46 | Each line yields at most one schedule |
| SubjectUtils.LineSchedulesDays | src/utils/subjectUtils.ts:28-31 | Every parsed day is in 0..6 |
| SubjectUtils.SchedulesOfSpec | src/utils/subjectUtils.ts:14-49 | Blank input gives no schedule; there is at most one schedule per `\n` line; every day is in 0..6 |
| SubjectUtils.FormatIsClockText | src/utils/subjectUtils.ts:107-111 | Below 100 hours a time is written as the five-character clock `HH:MM` |
| SubjectUtils.LineOfShape | src/utils/subjectUtils.ts:125 | The formatted line is day character, space, clock, `~`, clock |
| SubjectUtils.LineDayReadsBack | src/utils/subjectUtils.ts:24-31 | The day of a formatted line reads back |
| SubjectUtils.LineTimeReadsBack | src/utils/subjectUtils.ts:34-43 | The two clocks of a formatted line read back as its times |
| SubjectUtils.LineReadsBack | src/utils/subjectUtils.ts:120-127 | A formatted line parses to exactly its schedule |
| SubjectUtils.LineOfSingle | src/utils/subjectUtils.ts:125 | A formatted line has no line break and is not blank |
| SubjectUtils.OneLineSchedules | src/utils/subjectUtils.ts:15-25 | A non-blank string without a line break is parsed as one line |
| SubjectUtils.FormatParseRoundTrip | src/utils/subjectUtils.ts:120-127 | A schedule with a day in 0..6 and times below 100 hours survives `formatScheduleString` and `parseSchedule` unchanged |
| SubjectUtils.DigitRunEndSpec | src/utils/subjectUtils.ts:55 | Greedy `\d+` takes a maximal digit run |
| SubjectUtils.ParseCreditsSpec | src/utils/subjectUtils.ts:52-60 | Blank input and input without an `a : b : c` triple give 0; otherwise the result is the third number of the leftmost triple |
| SubjectUtils.CreditsExample | src/utils/subjectUtils.ts:51-59 | The catalogue string "3.0 : 0.0 : 3.0" carries 3 credits |
| SubjectUtils.CreditsAtStart | src/utils/subjectUtils.ts:55-59 | A triple at the start of the string is the one read |
| SubjectUtils.SearchSubjects | src/utils/subjectUtils.ts:130-162 | The result is an order-preserving subsequence of the input, holding exactly the subjects passing the query and every filter, each as often as in the input |
| SubjectUtils.SearchWithoutFilters | src/utils/subjectUtils.ts:141-158 | An empty query with absent, empty or 'All' filters returns the input unchanged |
| SubjectUtils.TimeConflictSpec | src/utils/subjectUtils.ts:165-176 | Conflict is symmetric and needs the same day; intervals that only touch do not conflict; for proper intervals it means sharing a minute |
| SubjectUtils.SubjectsConflictSymmetric | src/utils/subjectUtils.ts:179-188 | Subject conflict is symmetric |
| SubjectUtils.HasSubjectConflict | src/utils/subjectUtils.ts:179-188 | The nested loop with early return answers true exactly when some pair of schedules conflicts |
| SubjectUtils.CheckConflicts | src/utils/subjectUtils.ts:191-203 | `hasConflict` holds exactly when the list is non-empty, exactly when some selected subject conflicts; the list is a subsequence of the selection holding every conflicting selected subject, each as often as it is selected, and nothing else |
| SubjectUtils.TotalCreditsSpec | src/utils/subjectUtils.ts:206-208 | No subjects total 0; appending adds the subject's credits; totals add over concatenation and ignore order |
| SubjectUtils.GetFilterOptions | src/utils/subjectUtils.ts:211-230 | The `forEach` pass gives both lists as "push unless included" starting from ['All'] |
| SubjectUtils.FilterOptionsSpec | src/utils/subjectUtils.ts:211-230 | An option list starts with 'All' and has no repeats; it lists exactly 'All' and the given values, the values in order of first occurrence |
| SubjectUtils.SchedulePosition | src/utils/subjectUtils.ts:233-250 | Column is day+2; the start row is the half-hour row (counted from 9:00, first row 2) holding the start; the span is the least number of half-hour rows covering the duration |
| SubjectUtils.FilterBySemester | src/utils/subjectUtils.ts:261-273 | The result is an order-preserving subsequence holding exactly the subjects offered in the term, each as often as in the input |
| SubjectUtils.FilterBySemesterSpec | src/utils/subjectUtils.ts:252-273 | Subjects without a recorded semester are always kept; an unknown term filters like 'Spring 2025' (봄학기) |
| CodeScan.CodeShape | server.js:175 | Letters and five digits read from a match make a well-formed course code |
| CodeScan.StrictAtSpec | server.js:205 | The bare pattern yields the code written at the match, well formed |
| CodeScan.BracketAtSpec | server.js:175 | The bracket pattern yields a well-formed code written between `[` and `]` |
| CodeScan.BoldAtSpec | server.js:190 | The bold pattern yields a well-formed code written between `**` and `**` |
| CodeScan.LooseAtSpec | server.js:216-224 | The loose pattern yields its letters, a dot and its five digits, with only separators between them in the text, normalised to `XX.NNNNN` |
| CodeScan.SeparatorRunSpec | server.js:216 | The greedy `[.\s-_]*` run holds only separators |
| CodeScan.SeparatorRunEnd | server.js:216 | The separator run stays inside the text |
| CodeScan.MatchAtBounds | server.js:175-224 | A match ends after it starts, inside the text, and yields a well-formed code |
| CodeScan.MarkedImpliesStrict | server.js:175-205 | A bracketed or bold code is also a bare code just inside the markers |
| CodeScan.LooseCoversStrict | server.js:205-216 | Where the bare pattern matches, the loose one matches the same text with the same code |
| CodeScan.FindMatchSpec | server.js:179 | `exec` finds the leftmost match at or after `lastIndex`, or reports none |
| CodeScan.FindMatchAdvances | server.js:179 | A found match lies after the search start and ends after it starts, so the loop advances |
| CodeScan.Exec | server.js:179 | One `exec` call returns the leftmost match at or after `lastIndex`, or none when there is none |
| CodeScan.AllMatchesFromStep | server.js:179-181 | One `exec` call either ends the loop or collects one code and resumes at the match end |
| CodeScan.ExecAll | server.js:179-181 | The `while (exec)` loop collects the specified list of codes |
| CodeScan.AllMatchesFromSound | server.js:179-181 | Every collected code is well formed and is what the pattern matched somewhere in the text |
| CodeScan.AllMatchesFromEmpty | server.js:179-184 | The loop collects nothing exactly when the pattern matches nowhere |
| CodeScan.LeftmostCollectedFirst | server.js:179-181 | The leftmost match is collected, and first |
| CodeScan.AllMatchesSpec | server.js:179-184 | All collected codes are well formed and found in the text; the list is empty exactly when nothing matches |
| CodeScan.FirstTierSpec | server.js:175-235 | The result is empty exactly when every tier finds nothing; otherwise it is the de-duplicated codes of the first productive tier, all earlier tiers having found nothing |
| CodeScan.FirstTierCodes | server.js:186-230 | Whatever tier wins, the result has no repeats and holds only well-formed codes found in the text |
| CodeScan.ServerBracketWins | server.js:175-187 | A bracketed code anywhere makes the server's answer the bracketed codes alone |
| CodeScan.ServerWithoutBracketsIsClient | server.js:189-235 | Without a bracketed code the server and the page extract the same codes |
| CodeScan.NoLooseMatchNoCodes | server.js:233-235 | When even the loose pattern matches nowhere, both parsers return [] |
| ChatServer.ParseRecommendedCourses | server.js:170-236 | The server parser returns the tier rule over bracket, bold, bare and loose codes |
| ChatServer.FirstDotDigitSpec | server.js:50 | The search finds the leftmost `.` followed by a digit, or reports there is none |
| ChatServer.YearRecommendedSpec | server.js:50 | The year is '?' exactly when no `.` is followed by a digit; otherwise it is the digit after the leftmost such dot |
| ChatServer.YearOfCourseCode | server.js:50 | For a well-formed course code the year is the first digit of its number |
| ChatServer.HandleChat | server.js:113-158 | The response echoes the reply; `recommendation` is null exactly when no subject is recommended, and otherwise carries the recommended subjects and the full reply |
| ChatServer.RecommendedSubjectsSpec | server.js:116-135 | Recommended subjects are an order-preserving subsequence of the sent subjects. None are recommended unless the subject list is non-empty and the reply mentions '추천 시간표' or '시간표:'. Otherwise they are exactly the sent subjects whose code was extracted, each as often as it was sent |
| ChatServer.RecommendedCodesWellFormed | server.js:126-134 | Every recommended subject's code has the course-code shape |
| AiMakerPage.ParseRecommendedCourses | src/pages/AiMakerPage.tsx:186-233 | The page parser returns the tier rule over bold, bare and loose codes, with no bracket tier |
| AiMakerPage.ClientBoldWins | src/pages/AiMakerPage.tsx:195-202 | A bold code anywhere makes the page's answer the de-duplicated bold codes |
| AiMakerPage.ClientFallsBack | src/pages/AiMakerPage.tsx:204-232 | Without bold codes the page uses the bare codes, or failing those the normalised loose ones |
| AiMakerPage.MessagesToSendSpec | src/pages/AiMakerPage.tsx:97 | The request ends with the user's message, preceded by exactly the non-system history messages, each as often as in the history, in their order |
| AiMakerPage.InitialRequest | src/pages/AiMakerPage.tsx:29-38 | From the initial conversation only the assistant greeting is sent along |
| AiMakerPage.FallbackRecommendationSpec | src/pages/AiMakerPage.tsx:144-167 | The fallback selects exactly the semester subjects whose code was extracted, each as often as the semester lists it, in order, explained by the reply. It yields nothing exactly when the reply mentions neither '추천 시간표' nor '추천 과목', or names none of the semester's codes |
| AiMakerPage.ParseRecommendation | src/pages/AiMakerPage.tsx:144-170 | The client-side parsing branch computes the specified fallback |
| AiMakerPage.NextRecommendationSpec | src/pages/AiMakerPage.tsx:138-179 | A failed request keeps the recommendation; a non-empty server recommendation replaces it; any change installs one with at least one subject |
| AiMakerPage.AddAllCounts | src/pages/AiMakerPage.tsx:265-279 | addedCount + failedCount is the number of recommended subjects; the old selection stays in front, followed by `added` further subjects that are a subsequence of the offered ones |
| AiMakerPage.AddAllAppend | src/pages/AiMakerPage.tsx:270-279 | Offering two lists one after the other is offering their concatenation: the second starts from the first's selection, and the counts and refused names add up |
| AiMakerPage.AddAllTurn | src/pages/AiMakerPage.tsx:270-279 | Each recommended subject is judged at its turn: it is appended, and counted, exactly when the store accepts it against the selection built by the offers before it |
| AiMakerPage.AddAllFailedInOrder | src/pages/AiMakerPage.tsx:277 | The refused names are a subsequence of the offered names, in offering order |
| AiMakerPage.AddAllKeepsValid | src/pages/AiMakerPage.tsx:270-279 | In the sequential-add model, offering the subjects one after another keeps ids unique and the selection conflict-free; the source as written can append mutually conflicting recommendations (see "## Findings") |
| AiMakerPage.StaleAddOneAgrees | src/pages/AiMakerPage.tsx:270-279 | With a single recommended subject, the add-all as written and the sequential adds give the same selection, count and refused names |
| AiMakerPage.StaleAddAllBreaksValid | src/pages/AiMakerPage.tsx:270-279 | As written, two recommended subjects whose lectures overlap, offered to an empty timetable, are both appended, leaving a selection with a conflict |
| AiMakerPage.SequentialRefusesOverlap | src/pages/AiMakerPage.tsx:270-279 | Offered one after another, the same two subjects give one added subject and the second refused by name |
| AiMakerPage.AddAllCovers | src/pages/AiMakerPage.tsx:270-279 | Afterwards every offered subject is selected or its name is among the refused ones |
| AiMakerPage.ResultMessageEmpty | src/pages/AiMakerPage.tsx:282-290 | The alert is empty exactly when nothing was added or refused |
| AiMakerPage.ResultMessageOpensWithCount | src/pages/AiMakerPage.tsx:283-285 | When something was added the alert opens with that count in decimal |
| AiMakerPage.ResultMessageClosesWithNames | src/pages/AiMakerPage.tsx:287-290 | When something was refused the alert closes with the refused names, comma-separated in parentheses |
| AiMakerPage.ComposeResultMessage | src/pages/AiMakerPage.tsx:282-290 | The handler's line-by-line alert equals the specified alert text |
| AiMakerPage.AiMakerChat.constructor | src/pages/AiMakerPage.tsx:29-41 | The page starts with the two greetings, an empty input, not loading, no subjects, no recommendation |
| AiMakerPage.AiMakerChat.SetInput | src/pages/AiMakerPage.tsx:325 | Typing replaces the input and changes nothing else |
| AiMakerPage.AiMakerChat.LoadSemesterSubjects | src/pages/AiMakerPage.tsx:61-67 | Once subjects are loaded the semester's subjects are the semester filter of them; before, nothing changes |
| AiMakerPage.AiMakerChat.SendMessage | src/pages/AiMakerPage.tsx:82-183 | Blank input sends nothing and changes nothing. Otherwise the request is `messagesToSend` and the chat gains the user line then the reply or apology. The input is cleared, loading ends and the recommendation is updated as specified |
| AiMakerPage.AiMakerChat.ResetChat | src/pages/AiMakerPage.tsx:242-254 | Reset restores the greetings and drops the recommendation |
| AiMakerPage.AiMakerChat.AddOne | src/pages/AiMakerPage.tsx:236-239 | Adding one subject alerts the store's answer and leaves the store's new list |
| AiMakerPage.AiMakerChat.AddAllSubjects | src/pages/AiMakerPage.tsx:261-290 | Without a non-empty recommendation nothing happens; otherwise the store ends as the sequential adds leave it and the alert reports the counts and refused names |
| AiMakerPage.OfferAll | src/pages/AiMakerPage.tsx:265-279 | The `forEach` loop leaves the store, the number of successful adds and the refused names in order as the sequential adds give them; the failure count is the number of refused names |
| AiMakerPage.OfferFromIsAddAll | src/pages/AiMakerPage.tsx:265-279 | Continuing the loop from any subject with the counts and names so far gives the sequential adds of the remaining subjects, appended to what was gathered |
| TimetableContext.AddOutcomeSpec | src/contexts/TimetableContext.tsx:17-35 | An add succeeds exactly for a new id without conflicts. A duplicate is reported before a conflict. A refused add leaves the list unchanged; a successful one appends the subject at the end |
| TimetableContext.AddKeepsValid | src/contexts/TimetableContext.tsx:17-35 | Adding keeps ids unique and the selection pairwise conflict-free |
| TimetableContext.AfterRemoveSpec | src/contexts/TimetableContext.tsx:37-39 | Removing keeps exactly the subjects with another id, each as often as before, in order, and keeps the invariant; an absent id changes nothing |
| TimetableContext.TimetableStore.constructor | src/contexts/TimetableContext.tsx:15 | The store starts empty |
| TimetableContext.TimetableStore.AddSubject | src/contexts/TimetableContext.tsx:17-35 | The store answers and updates as specified, keeping its invariant |
| TimetableContext.TimetableStore.RemoveSubject | src/contexts/TimetableContext.tsx:37-39 | The store removes as specified, keeping its invariant |
| UseTimetable.BlocksClashSymmetric | src/hooks/useTimetable.ts:24-25 | Block clash is symmetric |
| UseTimetable.SectionsClashSpec | src/hooks/useTimetable.ts:20-28 | Section clash is symmetric and needs a block on each side |
| UseTimetable.AfterAddSpec | src/hooks/useTimetable.ts:7-11 | A section is appended exactly when it clashes with nothing and otherwise nothing changes; with no duplicate check, a section without blocks is always appended |
| UseTimetable.IsConflictIgnoresMinutes | src/hooks/useTimetable.ts:19-29 | Clashes depend on days and hours only, not minutes |
| UseTimetable.AddKeepsClashFree | src/hooks/useTimetable.ts:7-11 | Adding keeps the chosen sections clash-free |
| UseTimetable.AfterRemoveSpec | src/hooks/useTimetable.ts:13-17 | Removing drops exactly the entries with equal code and group, keeps every other entry as often as before and in order, and keeps the list clash-free |
| UseTimetable.TimetableHook.constructor | src/hooks/useTimetable.ts:5 | The hook starts empty |
| UseTimetable.TimetableHook.AddSubject | src/hooks/useTimetable.ts:7-11 | The hook adds as specified, keeping its invariant |
| UseTimetable.TimetableHook.RemoveSubject | src/hooks/useTimetable.ts:13-17 | The hook removes as specified, keeping its invariant |
| UseTimetable.TimetableHook.ClearAll | src/hooks/useTimetable.ts:31 | `clearAll` leaves the selection empty |
| UseCredits.CreditsSpec | src/hooks/useCredits.ts:3-5 | No sections total 0; appending adds the section's credit; totals add over concatenation and ignore order |
| UseSubjectSearch.FilteredSpec | src/hooks/useSubjectSearch.ts:9-14 | The result is an order-preserving subsequence holding exactly the sections that match query, type and department, each as often as in the input |
| UseSubjectSearch.NoFilterKeepsAll | src/hooks/useSubjectSearch.ts:9-14 | An empty query, empty type filter and null department filter keep every section |
| UseSubjectSearch.QueryIsCaseSensitive | src/hooks/useSubjectSearch.ts:10 | The query is matched with case: "ABC" does not match the title "abc" |
| MainPage.AddAlertSpec | src/pages/MainPage.tsx:80-101 | The page refuses exactly what the shared store refuses and ends with the same list. A duplicate id is reported first. A conflict alert names exactly the conflicting selected subjects, in order |
| MainPage.SearchResultsSpec | src/pages/MainPage.tsx:109-113 | At most 20 results, each a case-insensitive match of code, name or professor, in semester order; they are the first matches, and all of them when there are at most 20 |
| MainPage.EmptyQueryListsFirst | src/pages/MainPage.tsx:109-113 | The empty query lists the first 20 semester subjects |
| MainPage.MainPageState.constructor | src/pages/MainPage.tsx:80-106 | The page's selection starts empty |
| MainPage.MainPageState.AddSubject | src/pages/MainPage.tsx:80-101 | The page alerts and updates as specified, keeping its invariant |
| MainPage.MainPageState.RemoveSubject | src/pages/MainPage.tsx:104-106 | The page drops exactly the subjects with the id, in order, keeping its invariant |
| AiSuggestPage.CandidatesSpec | src/pages/AiSuggestPage.tsx:154-185 | A candidate is exactly a semester subject of the major or a basic requirement, English when preferred, without a morning class when that is avoided, meeting on a preferred day when days are given, and conflicting with no selected subject; candidates keep semester order and occur as often as the semester lists them |
| AiSuggestPage.GreedyOrderAndBound | src/pages/AiSuggestPage.tsx:197-204 | The picks keep the shuffled order, at most five |
| AiSuggestPage.GreedyWithinBudget | src/pages/AiSuggestPage.tsx:192-204 | Non-empty picks fit the remaining credits |
| AiSuggestPage.TotalCreditsNonNegative | src/pages/AiSuggestPage.tsx:188 | Credits that are never negative total at least 0 |
| AiSuggestPage.GreedyTotalNonNegative | src/pages/AiSuggestPage.tsx:192-204 | With no negative credit the picks total at least 0 |
| AiSuggestPage.GreedySkipsOnlyOverflow | src/pages/AiSuggestPage.tsx:197-204 | When fewer than five are picked, every subject is picked or would overflow the budget on top of the picks |
| AiSuggestPage.RecommendationsSpec | src/pages/AiSuggestPage.tsx:152-207 | Every recommendation passes all filters and avoids the selection; at most five, in shuffled order, within the remaining credits |
| AiSuggestPage.PickGreedily | src/pages/AiSuggestPage.tsx:189-206 | The greedy loop with its break at five computes the specified picks |
| AiSuggestPage.GenerateRecommendations | src/pages/AiSuggestPage.tsx:152-207 | The method returns the specified recommendations for the shuffle |
| AiSuggestPage.ToggleSpec | src/pages/AiSuggestPage.tsx:109-136 | Toggling flips the membership of the element and of nothing else |
| AiSuggestPage.AddAlertSpec | src/pages/AiSuggestPage.tsx:210-229 | The page's alert matches the shared store's message except for its own wording of the duplicate case |
| AiSuggestPage.AiSuggestState.constructor | src/pages/AiSuggestPage.tsx:34-44 | The page starts with the initial preferences and empty lists |
| AiSuggestPage.AiSuggestState.LoadSemesterSubjects | src/pages/AiSuggestPage.tsx:56-64 | Once subjects are loaded the semester's subjects are the semester filter of them and the suggestions are cleared |
| AiSuggestPage.AiSuggestState.DaySelect | src/pages/AiSuggestPage.tsx:109-121 | Only the preferred days change, by the toggle |
| AiSuggestPage.AiSuggestState.InterestToggle | src/pages/AiSuggestPage.tsx:124-136 | Only the interests change, by the toggle |
| AiSuggestPage.AiSuggestState.GenerateSuggestions | src/pages/AiSuggestPage.tsx:139-149 | The suggestions become the recommendations for the shuffle; nothing else changes |
| AiSuggestPage.AiSuggestState.AddSubject | src/pages/AiSuggestPage.tsx:210-229 | A duplicate or conflicting subject is refused and otherwise appended, keeping the invariant |
| ChatContext.StampedSpec | src/contexts/ChatContext.tsx:56-60 | Stamping keeps role and content and sets the timestamp to the time given |
| ChatContext.AfterAddMessageSpec | src/contexts/ChatContext.tsx:56-62 | `addMessage` appends exactly one message, the stamped input, and leaves earlier messages untouched |
| ChatContext.InitialMessagesAgree | src/contexts/ChatContext.tsx:30-39 | The store's greetings are the chat page's, system then assistant, without timestamps |
| ChatContext.ChatStore.constructor | src/contexts/ChatContext.tsx:51-53 | The store starts with the greetings, not loading, with no recommendation |
| ChatContext.ChatStore.AddMessage | src/contexts/ChatContext.tsx:56-62 | Adding updates the messages as specified and nothing else |
| ChatContext.ChatStore.SetIsLoading | src/contexts/ChatContext.tsx:52 | The loading flag setter changes only the flag |
| ChatContext.ChatStore.SetRecommendationResult | src/contexts/ChatContext.tsx:53 | The recommendation setter changes only the recommendation |
| ChatContext.ChatStore.ResetChat | src/contexts/ChatContext.tsx:65-69 | Reset restores the greetings, clears the recommendation and stops loading |
| ChatContext.ChatStore.ClearChat | src/contexts/ChatContext.tsx:72-76 | Clear empties the messages, clears the recommendation and stops loading |
| TimetableView.CharCode | src/components/timetable/Timetable.tsx:103 | `charCodeAt(0)` of a code point is the code point below 0x10000 and the high surrogate above |
| TimetableView.HashAppend | src/components/timetable/Timetable.tsx:103 | The hash of a concatenation is the sum of the hashes |
| TimetableView.HashPermutation | src/components/timetable/Timetable.tsx:103 | The hash depends only on the multiset of characters |
| TimetableView.ColorFromCodeSpec | src/components/timetable/Timetable.tsx:98-105 | The colour is always a palette entry and is invariant under reordering the code's characters |
| TimetableView.ColorOfOneChar | src/components/timetable/Timetable.tsx:98-105 | A one-character code gets the palette entry at its character code modulo ten (the code point itself in the Basic Multilingual Plane); appending a character moves the entry on by its code |
| TimetableView.GeometrySpec | src/components/timetable/Timetable.tsx:143-149 | The top sits below the 40-pixel header by the minutes since 9:00 at 40 pixels an hour; the height is the duration at that rate, so the bottom marks the end time; a visible block starts below the header |
| TimetableView.BlocksFromSpec | src/components/timetable/Timetable.tsx:144-172 | One box per visible time block of a subject, and exactly those |
| TimetableView.BlocksSpec | src/components/timetable/Timetable.tsx:143-173 | As many boxes as visible time blocks; a box is drawn exactly for a visible block, and a block before 9 or after 21 draws nothing |
| TimetableGrid.PositionStyle | src/components/Timetable.tsx:28-36 | Column day+2; the start row is the half-hour row holding the start; the span is the least number of half-hour rows covering the duration |
| TimetableGrid.PositionStyleAgrees | src/components/Timetable.tsx:28-36 | The grid's placement equals the shared schedule position once 9:00 is added back |
| TimetableGrid.BlocksSpec | src/components/Timetable.tsx:63-78 | Exactly one block per schedule slot of each course |
| OtlCrawling.ClassifyPriority | otl_crawl/otl_crawling.py:396-403 | A score text is filed under a key exactly when it contains that key's keyword and none earlier in the order 추천, 성적, 널널, 강의; with no keyword it adds no key |
| OtlCrawling.TrailingRunSpec | otl_crawl/otl_crawling.py:397 | The trailing run is the longest white-space-free suffix |
| OtlCrawling.LastWordSpec | otl_crawl/otl_crawling.py:397 | `split()[-1]` is a white-space-free word followed only by white space, empty only for blank text |
| OtlCrawling.ReadRatings | otl_crawl/otl_crawling.py:394-395 | Each score element is read in turn |
| OtlCrawling.RatingsFromKeys | otl_crawl/otl_crawling.py:391-403 | A key is in the dictionary exactly when some score text is filed under it |
| OtlCrawling.RatingsFromLastWins | otl_crawl/otl_crawling.py:394-403 | A later score for the same key overwrites an earlier one |
| OtlCrawling.RatingsOfSpec | otl_crawl/otl_crawling.py:391-403 | A key is present exactly when one of the texts is filed under it, and holds the last word of the last such text |
| OtlCrawling.RatingsFromFourKeys | otl_crawl/otl_crawling.py:394-403 | When every score is filed under one of the four rating keys, the dictionary has no other key |
| OtlCrawling.RatingKeys | otl_crawl/otl_crawling.py:397-403 | Only the four rating keys ever appear |
| OtlCrawling.RecommendationExample | otl_crawl/otl_crawling.py:396-397 | "추천 4" gives recommendation 4 |
| OtlCrawling.GradeExample | otl_crawl/otl_crawling.py:395-399 | " 성적 B+ " gives grade B+ after stripping |
| OtlCrawling.PriorityExample | otl_crawl/otl_crawling.py:396-403 | A text with both 강의 and 추천 is filed under recommendation |
| OtlCrawling.NoKeywordExample | otl_crawl/otl_crawling.py:396-403 | A text without a keyword adds nothing |
| OtlCrawling.ClassifyRatings | otl_crawl/otl_crawling.py:391-403 | The ratings loop builds the specified dictionary |
| OtlCrawling.ExtractReviewSpec | otl_crawl/otl_crawling.py:368-416 | A block yields a record exactly when it has title and content elements. The record holds the course's title and code, the stripped texts and the block's ratings. A missing span gives "알 수 없음" for both professor and semester |
| OtlCrawling.OtlScraper.ReadReview | otl_crawl/otl_crawling.py:369-419 | Reading a block computes the specified record or skip |
| OtlCrawling.ExtractReviews | otl_crawl/otl_crawling.py:368-419 | At most one record per block, each carrying the course's title and code |
| OtlCrawling.ExtractReviewsAppend | otl_crawl/otl_crawling.py:368-419 | Blocks are handled independently: the records of a concatenation are the records of the parts |
| OtlCrawling.MalformedBlockIsIsolated | otl_crawl/otl_crawling.py:418-419 | A malformed block removes only its own record |
| OtlCrawling.CourseKeyCollides | otl_crawl/otl_crawling.py:220-281 | The key is one string: title "A_B" with code "C" and title "A" with code "B_C" collide |
| OtlCrawling.KeysOfSpec | otl_crawl/otl_crawling.py:220-224 | The index holds exactly the `강의명_강의코드` keys of the loaded records |
| OtlCrawling.KeysOfPrefix | otl_crawl/otl_crawling.py:220-224 | More records never index fewer keys |
| OtlCrawling.OtlScraper.BuildIndex | otl_crawl/otl_crawling.py:221-224 | The index loop builds the specified key set |
| OtlCrawling.StepsAreKeyed | otl_crawl/otl_crawling.py:279-413 | Every record of a course carries that course's key |
| OtlCrawling.VisitUnitSpec | otl_crawl/otl_crawling.py:278-297 | A failed or known unit changes nothing. A new one appends its records after the existing ones and adds its key even with no record. It bumps the counter, and a checkpoint fires exactly when the counter reaches the interval, saving and resetting |
| OtlCrawling.VisitUnitSaves | otl_crawl/otl_crawling.py:294-297 | What one unit saves does not depend on earlier snapshots |
| OtlCrawling.WalkStopsAtAbort | otl_crawl/otl_crawling.py:321-345 | Once the failure path is taken no later unit is visited |
| OtlCrawling.WalkAppend | otl_crawl/otl_crawling.py:242-338 | Walking a + b is walking a, then b unless a aborted |
| OtlCrawling.WalkGrows | otl_crawl/otl_crawling.py:242-338 | Records and snapshots are only appended and keys only added |
| OtlCrawling.WalkCounterInRange | otl_crawl/otl_crawling.py:288-297 | Between units the counter is 0 or below the save interval |
| OtlCrawling.WalkKeepsSnapshotsChained | otl_crawl/otl_crawling.py:294-297 | Each snapshot is a prefix of every later snapshot and of the data |
| OtlCrawling.CrawlSnapshotsChained | otl_crawl/otl_crawling.py:206-356 | A run's data extends the loaded data and its snapshots are chained |
| OtlCrawling.VisitKeepsKeysIndexed | otl_crawl/otl_crawling.py:282-291 | After a visit every record's key is in the index |
| OtlCrawling.WalkKeysIndexed | otl_crawl/otl_crawling.py:242-338 | Every record in memory has its key in the index |
| OtlCrawling.WalkIndex | otl_crawl/otl_crawling.py:278-291 | Without failure the index ends as the start keys plus every opened course's key, record or not |
| OtlCrawling.WalkAllKnown | otl_crawl/otl_crawling.py:279-281 | When every opened course is known the loop appends nothing, keeps the counter and saves nothing |
| OtlCrawling.CrawlAllKnown | otl_crawl/otl_crawling.py:279-356 | Idempotent resume: loaded data covering every course gets nothing appended; no save happens unless the failure path rewrites the loaded data |
| OtlCrawling.WalkSynced | otl_crawl/otl_crawling.py:294-297 | Whenever the counter is 0 the file holds the data in memory |
| OtlCrawling.CrawlLeavesStoreCurrent | otl_crawl/otl_crawling.py:340-356 | Whatever happens, the last snapshot is the final data, or nothing was saved and the data is what was loaded |
| OtlCrawling.SecondCrawlAddsNothing | otl_crawl/otl_crawling.py:211-291 | Re-running the course list on a complete run's output appends nothing |
| OtlCrawling.SecondWalk | otl_crawl/otl_crawling.py:242-297 | The second run's loop keeps the data while the index accumulates opened keys |
| OtlCrawling.FirstWalkAt | otl_crawl/otl_crawling.py:242-297 | In a complete run, each step is reached without failure with the index of the keys opened before |
| OtlCrawling.FirstWalkKeepsNewRecords | otl_crawl/otl_crawling.py:282-291 | A course new in a complete run with reviews leaves its key among the final data's keys |
| OtlCrawling.FilterIds | otl_crawl/otl_crawling.py:101-173 | The ticked checkboxes come from the table, at most one per requested name; names the table does not know are passed over |
| OtlCrawling.MainFilters | otl_crawl/otl_crawling.py:455-462 | `main`'s filters tick type-HSE and no department box (전체 is not in the table) |
| OtlCrawling.OtlScraper.constructor | otl_crawl/otl_crawling.py:27 | The scraper starts with no data and no saved file |
| OtlCrawling.OtlScraper.SaveToJson | otl_crawl/otl_crawling.py:424-441 | Saving writes the current data as the new snapshot and changes no data |
| OtlCrawling.OtlScraper.ScrapeReviews | otl_crawl/otl_crawling.py:358-422 | The review loop appends exactly the records of the readable blocks, in order |
| OtlCrawling.OtlScraper.VisitCourse | otl_crawl/otl_crawling.py:263-297 | One course block updates data, index, counter and snapshots as the unit spec says |
| OtlCrawling.ScrapeRunSpec | otl_crawl/otl_crawling.py:209-356 | Whichever way a call ends, the loaded records stay in front, the snapshots are chained and the last is the data in memory (or nothing was saved and the data is what was loaded). When listing the course blocks raises, no unit is visited and the loaded records are saved once exactly when there are any |
| OtlCrawling.OtlScraper.ScrapeCourses | otl_crawl/otl_crawling.py:198-356 | The method leaves the data and the snapshots that the specified run produces from the load outcome and the course listing, including the failure path when the listing raises |
| OtlCrawling.OtlScraper.WalkCourses | otl_crawl/otl_crawling.py:240-338 | The loop over the units leaves the data, the counter and the snapshots, and reports the failure exit, exactly as the run over those units from the loaded state specifies |
| OtlCrawling.OtlScraper.RunCrawl | otl_crawl/otl_crawling.py:462-466 | `main` crawls with interval 5 when results exist and otherwise changes nothing |
| JsonConvert.MergeToJsonl | otl_crawl/json_convert.py:4-18 | The file loop writes the specified lines and ends, keeping what it wrote, at a file that cannot be opened |
| JsonConvert.JsonlStopsAtAbort | otl_crawl/json_convert.py:6-8 | Once a file cannot be opened (the `open` outside the `try`), no later file writes anything |
| JsonConvert.JsonlAbortsIff | otl_crawl/json_convert.py:6-16 | The merge aborts exactly when some file cannot be opened; it then holds the lines of the files before the first such file |
| JsonConvert.JsonlAppend | otl_crawl/json_convert.py:6-14 | Several files write their lines file after file, up to the first file that cannot be opened |
| JsonConvert.JsonlOneFile | otl_crawl/json_convert.py:8-16 | A file that cannot be opened ends the merge; otherwise it writes one line per array element, one line for an object, and nothing for any other value or an undecodable file (the caught decode error) |
| JsonConvert.MergeByTypeSpec | otl_crawl/json_convert.py:20-35 | A list of any length other than three is refused with the `ValueError` message. Otherwise the merge fails at the first file that does not load, and only then. When all three load, the k-th file's content is stored under the k-th of courses, reviews, subjects, and nothing else is in the object |
| JsonConvert.ScriptFileListMislabels | otl_crawl/json_convert.py:83-87 | When all three files load, merging the script's list stores the subject file's content under "reviews" and the review file's under "subjects"; whenever the two differ, the merged "reviews" are not the reviews |
| JsonConvert.CorrectedFileListLabels | otl_crawl/json_convert.py:20-35 | The reordered list holds the same paths, and when all three files load, merging it stores each kind's file under that kind's own key |
| JsonConvert.FlatTextSpec | otl_crawl/json_convert.py:51 | A non-string field adds nothing to the text; a string field adds `k: v`, after ` \| ` unless it is the first |
| JsonConvert.ConvertCategory | otl_crawl/json_convert.py:49-55 | The loop over one category's items produces the specified records, or fails as the conversion does |
| JsonConvert.ConvertToVectorStore | otl_crawl/json_convert.py:42-60 | The nested loops produce the specified records, or fail as the conversion does |
| JsonConvert.CategoryEntriesSpec | otl_crawl/json_convert.py:49-55 | A category converts exactly when all its items are objects; the k-th record is the k-th item's text with the category as source |
| JsonConvert.VsAllSpec | otl_crawl/json_convert.py:48-55 | The conversion succeeds exactly when every category iterates to objects only; it writes one record per item, each with a category name as source |
| JsonConvert.VectorStoreOfMerged | otl_crawl/json_convert.py:31-55 | A merged object converts its categories in the order courses, reviews, subjects |
| JsonConvert.SplitInHalfSpec | otl_crawl/json_convert.py:62-71 | Only arrays are split; the halves concatenate to the array, the first has half the length rounded down |

## Left out

- Selenium is not modelled: navigation, waits, clicks, scrolling, the ESC key, sleeps, screenshots and CSS selectors. Each course block is a `CourseUnit` saying what opening it produced. All failures before the title and code are read become `NotOpened`, and a failing error handler becomes `handlerFails`.
- File I/O is not modelled: `json.load`/`json.dump`, `open`, `os.makedirs` and the indent and `ensure_ascii` serialisation options. For the JSON Lines merge, a file is `CannotOpen` (the `open` error, which ends the merge), `Undecodable` (the caught decode error) or its parsed value; for the merge by type, and for the crawler's review file, a loaded file is its JSON value, or `None`/`Unreadable` when it cannot be opened or parsed. The error printed for an undecodable file is not modelled. For the merge by type, a map from path to content stands for the disk. JSON objects are taken to have distinct keys, as the Python dicts `json.load` returns do. The saved review file is the sequence of snapshots. A JSON Lines line is the value it serialises.
- Python exceptions are reduced to `Err`/`None` results: the `ValueError`s, a `json.load` that raises inside `merge_json_files_by_type` (`LoadFails` with the index of the first file that does not load), and a non-iterable or non-object entry in the vector-store conversion. `save_to_json` failing to write is not modelled.
- A review file that parses but is not a list of records carrying `강의명` and `강의코드` is not modelled. Examples are a top-level object, or a record without those keys. The key loop at otl_crawl/otl_crawling.py:222-224 then raises, and the failure path writes the loaded value back unchanged before any unit is visited. The model's loaded records are always well formed, so `LoadOutcome` has no case for such a file.
- `select_filters` is reduced to its two name-to-checkbox tables; its clicking and result detection are browser work. `navigate_to_otl` and `close` are browser work too.
- The OpenAI call, prompt construction, Express/CORS and `fetch` are not modelled. The assistant's reply is an input, and so is the HTTP outcome (`None` for a network error or non-OK status). The subject projection sent with the request is not modelled.
- Numbers are not IEEE floats. Credits are exact reals, and `parseFloat` of `\d+\.\d+` is its exact decimal value. `Math.floor`/`Math.ceil` of a division of integers is exact. The `(t/60)*60` of the grid component is taken as exactly `t`.
- JavaScript `Number` and `parseInt` are modelled on (trimmed) decimal digit strings; every other input is NaN (`None`).
- `toLowerCase` is modelled on ASCII letters only.
- AiMakerPage.AiMakerChat.AddAllSubjects: offers the recommended subjects one after another, each checked against the selection that already holds the ones just added. The source does not: each `addSubject` there checks the selection of the render in which the button was pressed, and the accepted subjects pile up through the state updater, so recommended subjects are never checked against each other. That reading is `StaleAddAll`, and "## Findings" shows where the two differ. So `TimetableStore.Valid()` is not an invariant of the source after an add-all. It holds only in the sequential model, and that is the model in which `AddSubject` and `RemoveSubject` require it.
- React batching and re-rendering are not modelled. Each handler is one method call on the state it reads.
- `Math.random` is not modelled: the shuffle is an explicit `order` permutation of candidate positions. The `setTimeout` delay and the `isGenerating` flag of `handleGenerateSuggestions` are left out.
- `Date.now()` is the parameter `now`.
- `handleInputChange` and `handleCheckboxChange` of the suggestion page are not modelled. They are plain field writes whose `parseInt` of the credits field is outside the supported number model.
- AiSuggestPage.GreedyWithinBudget: states the budget bound only for a non-empty pick list, because when the remaining credits are negative the source returns no pick and the empty total 0 exceeds the budget.
- UseCredits.CreditsSpec: sums `credit` directly; the `?? 0` fallback for a missing credit is not modelled because the catalogue record's credit is always present.
- `RecommendationResult.subjects` in the chat context is typed `any[]` in the source; it is modelled as the `Subject` record.
- Pixel geometry from the DOM is not modelled: `clientWidth`, the `left`/`width` of timetable boxes, and the hour and header rows. The CSS `gridColumn`/`gridRow` strings are kept as numbers, with the text builders alongside.
- Subject fields no modelled code reads are omitted, and so is `processSubjectData`'s dependence on the bundled `subjectData.json`.
- Regular expressions are not modelled in general; each pattern used has its own hand-written matcher.

## Findings

| source | as written | input that shows it | evidently intended | confidence | as-written member | corrected member |
|---|---|---|---|---|---|---|
| otl_crawl/json_convert.py:83-87 | `json_file_list` is courses, subjectData, reviewData, but the merge stores its 2nd file under "reviews" and its 3rd under "subjects" (lines 21-35) | `merge_json_files_by_type(json_file_list, ...)`, whose call is commented out (line 90) | the list in the order courses, reviews, subjects, as the merge function's error message names | low, not executed | JsonConvert.ScriptFileListMislabels | JsonConvert.CorrectedFileListLabels |
| src/pages/AiMakerPage.tsx:270-279 | each `addSubject` in the `forEach` checks the selection of the render (src/contexts/TimetableContext.tsx:19-31) but appends through the updater (line 33), so the recommended subjects are never checked against each other | two recommended subjects with different ids whose Monday lectures overlap, added to an empty timetable: both are appended | each subject checked against the selection including the ones just added, as a single add promises | medium, not executed | AiMakerPage.StaleAddAllBreaksValid | AiMakerPage.AddAllKeepsValid |
