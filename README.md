# Ink scheduler core, modelled in Dafny

The ink scheduler assigns each fountain pen ink in a collection to one day of a year.

Each ink carries a `private_comment` holding a JSON object. A key `swatch<year>` in that object records the ink's date for that year and, optionally, a theme for the date's month. Dates read back from these comments form the *persisted layer* (`api`), which the tools treat as protected. Dates chosen in the running app form the *session layer* (`session`). The calendar shows the *merged* view `{**session, **api}`, where the persisted layer wins.

The model covers six parts of the system:
- the comment codec;
- the pure reducers that move, swap, assign and unassign session entries;
- the name resolver and search;
- the twelve tool functions that a chat assistant calls against a snapshot of the state;
- the UI helpers: calendar cells, session files, month themes and the post-save refresh;
- the validator for a month-by-month plan proposed by a language model, together with the stripping of code fences from its reply.

Modules follow the source files:

| module | file | models |
|---|---|---|
| `Wrappers` | wrappers.dfy | `Option` |
| `Text` | text.dfy | ASCII `lower`, `in` on strings, `strip`, `split`, `int()` on text, decimal and `:02d` formatting |
| `Calendar` | calendar.dfy | Gregorian month lengths; `strptime(s, "%Y-%m-%d")` as `ParseDate`; the `YYYY-MM-DD` and `YYYY-MM` texts |
| `Codec` | codec.dfy | the comment readers and writers of assignment_logic.py |
| `Store` | store.dfy | the persisted layer and the queries of assignment_logic.py |
| `Engine` | engine.dfy | `move_ink_assignment`, `swap_ink_assignments` and the merged view |
| `ToolSpec` | toolspec.dfy | specification functions for the tools: free days, the bulk loop, the tallies |
| `Facade` | facade.dfy | `create_tool_functions`: a class whose fields are the snapshot and the reactive cells, one method per tool |
| `AppHelpers` | helpers.dfy | app_helpers.py |
| `Organizer` | organizer.dfy | fence stripping and `validate_monthly_assignments` of llm_organizer.py |

Several things are modelled abstractly:
- JSON text is not modelled. A comment is its raw text together with the value `json.loads` would give, or `None` where `json.loads` raises.
- Ink indices are natural numbers.
- The reactive cells of the Shiny app become fields of the `ToolFacade` class. The methods write these fields as the source writes the cells and the snapshot dict.

## Model

| member | source | states |
|---|---|---|
| Text.NatToString | chat_tools.py:301 | the decimal text of a year is non-empty and all digits, and it has one digit exactly for n < 10 |
| Text.NatToStringValue | chat_tools.py:301 | reading the decimal text of n back gives n |
| Text.NatToStringInjective | app_helpers.py:293 | distinct years give distinct texts, so month keys of distinct years differ |
| Text.Pad2 | chat_tools.py:301 | `:02d` gives at least two digits, and exactly two below 100 |
| Text.Pad2Value | chat_tools.py:301 | reading a `:02d` field back gives the number |
| Text.FourDigitYear | assignment_logic.py:92 | years 1000..9999 print with the four digits `%Y` requires |
| Text.Lower | assignment_logic.py:303-318 | lower-casing keeps the length and maps each character through ASCII lower-casing |
| Text.ContainsSuffix | assignment_logic.py:319-321 | a substring of the name is a substring of the brand-prefixed full name |
| Text.StripLeft | llm_organizer.py:228 | the result is a suffix of the input, everything dropped is whitespace, and the result starts with a non-space |
| Text.StripRight | llm_organizer.py:238 | the result is a prefix of the input, everything dropped is whitespace, and the result ends with a non-space |
| Text.Strip | chat_tools.py:635 | the stripped text is empty or starts and ends with a non-space |
| Text.StripSlice | llm_organizer.py:228 | the stripped text is a slice of the input whose cut-off ends are all whitespace |
| Text.StripOfSpaced | llm_organizer.py:238 | stripping text padded with whitespace on both sides gives back exactly the unpadded text |
| Text.Split | chat_tools.py:152 | `split("-")` always yields at least one part |
| Text.SplitAtSeparator | chat_tools.py:152 | splitting `a + "-" + b`, where a has no dash, yields a followed by the parts of b |
| Text.PyIntOfPad2 | chat_tools.py:152 | `int()` of a `:02d` field is the number |
| Calendar.DaysInMonth | app_helpers.py:29 | months have 28..31 days: February has 29 exactly in leap years, and April, June, September and November have 30 |
| Calendar.YearLength | chat_tools.py:481 | the month lengths sum to 366 in leap years and 365 otherwise |
| Calendar.ParseDate | assignment_logic.py:86-97 | a parsed date is a real calendar date |
| Calendar.ParseDateString | assignment_logic.py:92 | `strptime` parses the zero-padded text of any valid date with a four-digit year back to that date |
| Calendar.SplitDateString | chat_tools.py:152 | a date text splits on `-` into year, month and day fields |
| Calendar.DayFieldOfDateString | chat_tools.py:152 | the day field of a formatted date reads back as the day |
| Calendar.DateStringInMonth | chat_tools.py:151 | a formatted date starts with its month's `YYYY-MM-` prefix |
| Codec.ParseComment | assignment_logic.py:38-53 | an empty or undecodable comment reads as `{}`, and any other comment reads as its decoded value |
| Codec.SwatchKeyInjective | assignment_logic.py:67 | different years use different `swatch<year>` keys |
| Codec.GetSwatch | assignment_logic.py:56-72 | the year's record is returned exactly when `swatch<year>` holds an object, and it is that object |
| Codec.ExtractDate | assignment_logic.py:75-97 | the record's `date` text is returned exactly when it parses as a valid date in the requested year; any returned date is that text |
| Codec.ExtractTheme | assignment_logic.py:100-123 | a record is returned exactly when the year's object has a truthy `theme` or `theme_description`, and it carries the record's two values, a missing or falsy side reading as `""` |
| Codec.CheckOverwriteConflict | assignment_logic.py:126-154 | a conflict is reported exactly when the year's record has a truthy `date`, and it carries that date and the record's theme and description |
| Codec.BuildSwatchComment | assignment_logic.py:157-196 | `swatch<year>` becomes `{date}` plus the non-empty theme fields, and every other key is kept |
| Codec.HasKey | assignment_logic.py:217 | Python's `in`: a key test on an object, a substring test on a string, an element test on a list, and a TypeError (`None`) on numbers, booleans and null |
| Codec.RemoveSwatchComment | assignment_logic.py:199-221 | on an object comment exactly `swatch<year>` is removed and every other key is kept; the call raises exactly when the key test raises or succeeds on a non-object; any other comment is dumped unchanged, or as `{}` when falsy |
| Codec.TolerantParse | assignment_logic.py:48-53 | empty or malformed comments read as holding no date, no theme and no conflict |
| Codec.LegacyStringIgnored | assignment_logic.py:69-72 | a bare-string `swatch<year>` value yields no date and no theme |
| Codec.WrongYearIgnored | assignment_logic.py:93-95 | a date from another year is not returned |
| Codec.BuildThenExtractDate | assignment_logic.py:181-196 | reading back a built comment gives the date that was written |
| Codec.BuildThenExtractTheme | assignment_logic.py:181-196 | reading back a built comment gives the theme that was written |
| Codec.BuildKeepsOtherYears | assignment_logic.py:181-196 | building for one year leaves the date and theme of every other year unchanged |
| Codec.RemoveThenExtract | assignment_logic.py:212-221 | removal succeeds on a readable comment; afterwards the year has no date, and other years keep theirs |
| Codec.RemoveUndoesBuild | assignment_logic.py:199-221 | removing a built year gives the same object as removing it from the original |
| Codec.BuildThenConflict | assignment_logic.py:126-154 | a built comment reports a conflict carrying the written date and theme |
| Store.HasAssignment | assignment_logic.py:274-286 | an assignment needs the year's record; a conflict or an extracted date implies one |
| Store.DateImpliesHasAssignment | assignment_logic.py:274-286 | an ink whose comment yields a date has an assignment |
| Store.DatesOf | assignment_logic.py:242-244 | the i-th entry is the date read from ink i's comment |
| Store.ExplicitMember | assignment_logic.py:224-250 | a date is in the persisted layer exactly when some ink's comment carries it |
| Store.ExplicitFirstWriter | assignment_logic.py:235-250 | each date of the persisted layer maps to the smallest index whose comment carries it |
| Store.ExplicitInjective | assignment_logic.py:235-250 | no two dates of the persisted layer map to the same ink |
| Store.CreateExplicitAssignmentsOnly | assignment_logic.py:224-250 | the loop builds exactly the first-writer persisted layer, and every value is an ink carrying its date |
| Store.GetMonthSummary | assignment_logic.py:253-271 | the call fails (the source's ValueError) exactly when some key is not a `YYYY-MM-DD` date; otherwise each ink index occurs in the result as often as the dates of that month that map to it |
| Store.ExactIsSubstring | assignment_logic.py:303-331 | an exact name match is also a substring match |
| Store.FirstExactSpec | assignment_logic.py:303-312 | the exact-match scan finds the first exact match and nothing earlier, and finds none exactly when no ink matches exactly |
| Store.CandidatesSpec | assignment_logic.py:314-322 | the candidates are exactly the substring matches |
| Store.CandidatesIncreasing | assignment_logic.py:314-322 | the candidates are in index order |
| Store.FirstShortestSpec | assignment_logic.py:324-331 | the chosen candidate has the shortest name, and the earliest index among equal lengths |
| Store.ResolveSpec | assignment_logic.py:289-331 | no ink is found exactly when nothing matches; an exact match wins with its first index; otherwise the shortest, earliest substring match wins |
| Store.FindInkByName | assignment_logic.py:289-331 | the loops compute `Resolve` |
| Store.SearchInks | assignment_logic.py:334-373 | exactly the inks that pass every filter are returned, in index order, each flagged by `has_assignment`; only the comments of matching inks must be objects |
| Engine.Merged | chat_tools.py:67-69 | the merged view has the keys of both layers, and the persisted layer wins on shared dates |
| Engine.MoveInk | assignment_logic.py:391-558 | each failure (no dates, bad `from`, bad `to`, protected source, no session entry, index mismatch, index required, protected target, already assigned) is reported exactly when every earlier check passes; success holds exactly when all checks pass; failures leave the session unchanged; unassign, assign and move each give their new session, report the displaced occupant and change no other date |
| Engine.SwapInks | assignment_logic.py:561-638 | the swap succeeds exactly for two valid unprotected session dates, exchanges their inks and changes nothing else; otherwise it reports bad format, protected, then no assignment, first for `date1` and then for `date2` |
| Engine.ProtectedDatesRejected | assignment_logic.py:437-540 | a move touching a persisted date fails, and fails as protected when it is the source |
| Engine.PersistedLayerUntouched | assignment_logic.py:391-638 | for any arguments, a move or a swap keeps the session's entry (or its absence) on every date the persisted layer holds |
| Engine.AssignThenUnassign | assignment_logic.py:483-529 | unassigning a freshly assigned date restores the session |
| Engine.MoveThenMoveBack | assignment_logic.py:531-558 | moving an ink to a free date and back restores the session |
| Engine.SwapTwice | assignment_logic.py:561-638 | swapping the same pair twice restores the session |
| Engine.UnassignKeepsConsistent | assignment_logic.py:483-492 | unassigning keeps every ink on at most one merged date |
| Engine.AssignKeepsConsistent | assignment_logic.py:494-529 | assigning an ink absent from the merged view keeps every ink on at most one merged date |
| Engine.MoveKeepsConsistent | assignment_logic.py:391-558 | every successful or failed move keeps every ink on at most one merged date |
| Engine.SwapKeepsConsistent | assignment_logic.py:561-638 | a swap keeps every ink on at most one merged date |
| ToolSpec.FreeDays | chat_tools.py:261-267 | the available days are exactly the unoccupied days of the month, in ascending order |
| ToolSpec.DateStringInjective | chat_tools.py:301 | distinct days give distinct date texts |
| ToolSpec.FreeDayIsFree | chat_tools.py:261-267 | the date of a free day is not in the merged view |
| ToolSpec.Bulk | chat_tools.py:280-312 | the loop classifies every identifier |
| ToolSpec.BulkTaken | chat_tools.py:278-304 | an index is taken exactly when it was assigned before or written earlier in the loop |
| ToolSpec.BulkClassification | chat_tools.py:284-304 | an unresolved identifier fails; a resolved index is written to day i when free, and is reported as already assigned otherwise |
| ToolSpec.BulkWritesDays | chat_tools.py:300-303 | every write lands on its identifier's available day |
| ToolSpec.BulkWritesOnly | chat_tools.py:300-303 | the loop writes no other dates |
| ToolSpec.BulkWritesFreshInks | chat_tools.py:291-304 | a written index was not assigned before and is never written twice |
| ToolSpec.BulkWritesFreeDates | chat_tools.py:261-303 | only previously free dates are written |
| ToolSpec.BucketsPartition | chat_tools.py:280-312 | successful, failed and already-assigned counts add up to the number of identifiers |
| ToolSpec.SomeWrittenIffCount | chat_tools.py:319 | success holds exactly when at least one write happened |
| ToolSpec.KeyMonth | chat_tools.py:453-457 | a key without `-` has no month; a month is read only when the first field reads as the year, and it is `int()` of the second field |
| ToolSpec.KeyMonthOfDateString | chat_tools.py:455-457 | the summary reads a formatted date back into its month |
| ToolSpec.PyIntOfNatToString | chat_tools.py:456 | `int()` of a year's text is the year |
| ToolSpec.LayersSplit | chat_tools.py:458-462 | per month, assigned days split into persisted and session days |
| ToolSpec.ThemeMatch | chat_tools.py:532-555 | without a query, every ink that passes the color and brand filters of `search_inks` passes here too |
| ToolSpec.CategoriesPartition | chat_tools.py:560-575 | the unassigned, session and persisted counts add up to the inks visited |
| Facade.InsertByDay | chat_tools.py:163 | inserting into a day-sorted list keeps it sorted and adds exactly the new entry |
| Facade.SortByDay | chat_tools.py:163 | the entries are sorted by day and are a permutation of the input |
| Facade.CollectMonthEntries | chat_tools.py:148-161 | exactly the merged dates of the month with a known ink are listed, once each, with their protected flag |
| Facade.BulkResult | chat_tools.py:250-331 | an invalid month, an empty collection and too few free days fail, in that order, and the reply is Ok exactly otherwise; one outcome per identifier, the counts add up to the identifiers, success holds exactly when one was written, and the session changes only on success |
| Facade.RunBulk | chat_tools.py:276-312 | the loop computes the outcomes and writes of `Bulk` and counts each bucket |
| Facade.AssignMonth | chat_tools.py:250-331 | the validation, the free days and the loop together give the bulk reply and the new session |
| Facade.BulkResultOnlyAddsFreeDates | chat_tools.py:257-316 | bulk assignment keeps every session entry and adds only unprotected dates of the month |
| Facade.ProtectedDates | chat_tools.py:392-401 | exactly the persisted dates of the month whose ink exists are listed, once each |
| Facade.RemoveMonth | chat_tools.py:403-413 | exactly the session dates of the month are removed and listed, and every other entry is kept |
| Facade.Bumped | chat_tools.py:457-462 | twelve counts: the date's month goes up by one when the date is in the counted layer, and every other count is kept |
| Facade.CountKey | chat_tools.py:453-465 | one date bumps its month's total and its layer's count, and the year total when the date lies in the year |
| Facade.TallyMonths | chat_tools.py:450-465 | each month's counts are the numbers of merged dates of that month, overall and per layer |
| Facade.LayOutMonths | chat_tools.py:467-481 | twelve month rows give days, counts and unassigned days; the year has 365 or 366 days |
| Facade.SummarizeYear | chat_tools.py:447-491 | the summary matches the tallies of the merged view |
| Facade.OfferFor | chat_tools.py:566-585 | an ink is offered exactly when it passes the filters, and a session-bound offer carries one of its session dates |
| Facade.ScanOne | chat_tools.py:560-583 | one ink's step: its category is counted, and it is offered exactly when it is eligible and passes the filters |
| Facade.ScanAvailable | chat_tools.py:557-588 | the scan visits a prefix of the collection and counts the categories of exactly those inks. It offers exactly the eligible matching inks of that prefix, in order, never persisted ones, and at most max(`limit`, 1) of them. Once an offer reaches the limit the scan ends right after it, and it ends nowhere else before the end of the collection |
| Facade.StopPointUnique | chat_tools.py:585-588 | the offers fix where the scan stops, so the counted prefix is determined |
| Facade.NewTheme | chat_tools.py:635-643 | a blank theme is rejected; otherwise the trimmed theme and description are stored |
| Facade.ToolFacade.constructor | chat_tools.py:32-56 | the cells are stored, and the snapshot starts empty with year 2026 |
| Facade.ToolFacade.WriteSession | chat_tools.py:314-316 | a session write sets the reactive cell and the snapshot to the same value and touches nothing else |
| Facade.ToolFacade.WriteThemes | chat_tools.py:644-645 | a themes write sets the reactive cell and the snapshot to the same value and touches nothing else |
| Facade.ToolFacade.UpdateSnapshot | chat_tools.py:58-65 | the snapshot copies every cell, keeps its themes when no themes cell exists, and changes no cell |
| Facade.ToolFacade.ListAllInks | chat_tools.py:71-92 | it fails exactly on an empty collection, and is Ok otherwise; it lists every index, flagged by the merged view |
| Facade.ToolFacade.SearchInks | chat_tools.py:94-122 | it fails exactly on an empty collection, and is Ok otherwise; it returns exactly the matching inks, in order, flagged by the merged view |
| Facade.ToolFacade.GetMonthAssignments | chat_tools.py:124-174 | an invalid month or empty collection fails, and it is Ok otherwise; it lists the month's merged entries sorted by day, with unassigned = days − assigned |
| Facade.ToolFacade.AssignInkToDate | chat_tools.py:176-229 | the errors are no inks, an unknown ink or the move's own failure; for a resolved ink the reply is Ok exactly when the assign move succeeds, and carries the move's failure otherwise; an error changes nothing; success writes the assign move's session to the cell and the snapshot |
| Facade.ToolFacade.BulkAssignMonth | chat_tools.py:231-331 | the reply is the bulk result, and the session is written only when at least one ink was written |
| Facade.ToolFacade.UnassignInkFromDate | chat_tools.py:333-364 | success removes exactly that session date and returns its ink; failure changes nothing |
| Facade.ToolFacade.ClearMonthAssignments | chat_tools.py:366-429 | a valid month gives Ok and an invalid one an error; exactly the session dates of the month are removed, and the persisted dates of the month whose ink exists are reported as protected; success iff something was removed or nothing is protected; no write when nothing was removed |
| Facade.ToolFacade.GetCurrentAssignmentsSummary | chat_tools.py:431-491 | it fails exactly on an empty collection, and is Ok otherwise; the summary matches the tallies |
| Facade.ToolFacade.FindAvailableInksForTheme | chat_tools.py:493-607 | it fails exactly on an empty collection, and is Ok otherwise; at most max(`limit`, 1) offers are returned. They are the eligible matching inks of the scanned prefix, whose categories are counted, and the prefix ends right after the offer that reached the limit, or at the end of the collection when no offer reached it |
| Facade.ToolFacade.SetMonthTheme | chat_tools.py:609-656 | the reply is Ok exactly with a themes cell, a valid month and a non-blank theme; otherwise nothing changes; on success the trimmed theme overwrites the month's key |
| Facade.ToolFacade.GetMonthTheme | chat_tools.py:658-699 | the reply is Ok exactly for a valid month; `fromSession` holds exactly when the month's key exists, with its stored theme |
| Facade.ToolFacade.ClearMonthTheme | chat_tools.py:701-742 | the reply is Ok exactly with a themes cell and a valid month; it removes only the month's key, reports whether the key existed, and changes nothing when it is absent |
| AppHelpers.GetMonthDates | app_helpers.py:18-30 | one zero-padded date text for each day of the month, in order |
| AppHelpers.MonthDatesMeaning | app_helpers.py:18-30 | the k-th date lies in the month, has day k+1 and parses to that date |
| AppHelpers.MonthDatesDistinct | app_helpers.py:18-30 | the month's dates are pairwise distinct |
| AppHelpers.MakeButtonId | app_helpers.py:33-46 | the id is the prefix, `_`, and the date with each `-` replaced by `_` and every other character kept |
| AppHelpers.ButtonIdOfDate | app_helpers.py:33-46 | the id of a date is the prefix followed by year, month and day joined with underscores |
| AppHelpers.ButtonIdInjective | app_helpers.py:33-46 | different dates give different button ids |
| AppHelpers.HandledBounded | app_helpers.py:49-60 | `detect_new_click` over a run of readings: a click counter that never exceeds `top` fires at most `top − prev` times |
| AppHelpers.StaleReadingsIgnored | app_helpers.py:49-60 | `detect_new_click` over a run of readings: readings that do not exceed the recorded count never fire |
| AppHelpers.PrepareCellData | app_helpers.py:80-129 | a cell has an ink exactly when its date is assigned to a known ink; it shows the ink's name or `"Unknown"` and its color or `"#cccccc"`; it is editable exactly for session-only dates and marked API exactly for persisted dates; empty cells are blank |
| AppHelpers.CellKinds | app_helpers.py:102-129 | over the merged view, a filled cell is either editable or persisted, never both |
| AppHelpers.PrepareMonthCells | app_helpers.py:132-161 | one cell per day of the month, with day k+1 and the k-th date |
| AppHelpers.MonthCellsConsistent | app_helpers.py:132-161 | each cell's date has its own day and month, and its ink is the merged view's ink for that date |
| AppHelpers.ParseSessionData | app_helpers.py:233-254 | the new format yields its assignments and its themes (or `{}`); the old format yields the whole dict and no themes |
| AppHelpers.SessionRoundTrip | app_helpers.py:246-254 | loading a saved session gives back its assignments and themes |
| AppHelpers.OldFormatLoads | app_helpers.py:246-254 | a file of date keys loads as assignments with no themes |
| AppHelpers.FirstDayInk | app_helpers.py:304-313 | the ink of day 01 is a known ink |
| AppHelpers.GetMonthTheme | app_helpers.py:268-324 | a non-empty session theme wins; otherwise the theme comes from the comment of the ink on day 01; otherwise the month has no theme |
| AppHelpers.PrepareSaveData | app_helpers.py:339-360 | a malformed date is rejected; otherwise the month key and the month's session theme, or `""`, are carried |
| AppHelpers.SaveCarriesShownTheme | app_helpers.py:339-360 | saving a date carries exactly the session theme that the month shows |
| AppHelpers.PreparePostSaveUpdates | app_helpers.py:370-413 | only the saved ink's comment changes, the persisted layer is recomputed, and the saved date leaves the session |
| AppHelpers.SavedComment | assignment_logic.py:181-196 | the saved comment reads back the saved date and theme |
| AppHelpers.PostSaveMovesDate | app_helpers.py:398-413 | after a save, the date is persisted for that ink, has left the session, and still shows that ink |
| AppHelpers.SavedThemeShown | app_helpers.py:293-324 | after saving a themed day 01, the month shows that theme from the persisted layer |
| Organizer.StripFences | llm_organizer.py:228-238 | the text handed to the decoder starts and ends with a non-space |
| Organizer.UnfenceFenced | llm_organizer.py:231-236 | a ```` ```json ```` or ```` ``` ```` fence around a body is removed |
| Organizer.UnfenceObject | llm_organizer.py:231-236 | an unfenced object is left alone |
| Organizer.FencedReply | llm_organizer.py:228-238 | a fenced reply with any surrounding whitespace strips to its body |
| Organizer.BareReply | llm_organizer.py:228-238 | a bare object reply with surrounding whitespace strips to the object |
| Organizer.ParseMonthlyAssignments | llm_organizer.py:217-244 | the stripped text is decoded, or reported as undecodable |
| Organizer.ParseFencedReply | llm_organizer.py:217-244 | fenced and bare replies decode to their body |
| Organizer.Range | llm_organizer.py:277 | `set(range(n))` |
| Organizer.Keys | llm_organizer.py:262-263 | the month keys present in the plan: every plan's key and nothing else |
| Organizer.MissingBelow | llm_organizer.py:262-264 | exactly the absent months are reported, once each, in ascending order |
| Organizer.Repeats | llm_organizer.py:267-273 | every repeat error names a listed index |
| Organizer.MinOf | llm_organizer.py:277-280 | the least element of a non-empty set |
| Organizer.SortedElems | llm_organizer.py:277-280 | `sorted(set)`: strictly increasing, with the same elements |
| Organizer.UnlistedError | llm_organizer.py:276-279 | a `NotAssigned` error exactly when some index 0..n−1 is unlisted, listing exactly those indices in increasing order |
| Organizer.OutOfRangeError | llm_organizer.py:281-283 | an `InvalidIndices` error exactly when some listed index lies outside 0..n−1, listing exactly those indices in increasing order |
| Organizer.Coverage | llm_organizer.py:276-283 | first a `NotAssigned` error exactly when some index 0..n−1 is unlisted, then an `InvalidIndices` error exactly when some listed index is out of range, each listing exactly those indices in increasing order, and nothing else |
| Organizer.InkErrors | llm_organizer.py:266-283 | the ink checks never report a missing month |
| Organizer.NoteIndices | llm_organizer.py:267-273 | one month's indices extend the repeat errors and the seen set |
| Organizer.ReportMissingMonths | llm_organizer.py:262-264 | the loop reports `MissingBelow` |
| Organizer.ReportRepeats | llm_organizer.py:266-273 | the loops report every repeat and collect every index |
| Organizer.ReportCoverage | llm_organizer.py:276-283 | the statements build the unassigned error, then the invalid-index error, giving `Coverage` |
| Organizer.ValidateMonthlyAssignments | llm_organizer.py:247-285 | the method computes the error list `ValidationErrors` |
| Organizer.RepeatsEmptyIffDistinct | llm_organizer.py:267-273 | no repeat error exactly when the listed indices are distinct |
| Organizer.RepeatsCount | llm_organizer.py:267-273 | one repeat error for each occurrence after an index's first |
| Organizer.MissingMonthsReported | llm_organizer.py:262-264 | month m is reported missing exactly when its key is absent |
| Organizer.InkErrorsEmptyIff | llm_organizer.py:266-283 | no ink error exactly when each index in 0..n−1 is listed once and nothing else is listed |
| Organizer.MissingBelowEmptyIff | llm_organizer.py:262-264 | no missing-month error exactly when all twelve keys are present |
| Organizer.ValidIff | llm_organizer.py:247-285 | the error list is empty exactly when all twelve months are present and every index 0..n−1 is listed exactly once with no others |

## Left out

- Reading and writing JSON text (`json.loads`/`json.dumps`) is not modelled. A comment is modelled by its decoded value, and the fence stripping takes the decoder as a parameter.
- Codec.RemoveSwatchComment models every decoded value, with the TypeError as `None`. The readers (GetSwatch, ExtractDate, ExtractTheme, CheckOverwriteConflict, HasAssignment) call `.get` on the decoded value, which raises for a non-object; they require an object comment instead of modelling that AttributeError. Store.SearchInks and Facade.ToolFacade.SearchInks require it only of the inks the filters select, the only ones whose comment is read. AppHelpers.GetMonthTheme requires it of the day-01 ink only when no session theme answers first.
- ExtractDate: a non-string `date` value in a swatch record makes the source raise a TypeError. A readable date is a precondition.
- GetMonthAssignments, BulkAssignMonth, ClearMonthAssignments, BulkResult, AssignMonth and CollectMonthEntries: a key under the month's prefix whose day field `int()` rejects makes the source raise ValueError. It is not modelled as an error. Instead, readable day fields (DaysReadable, ListedDaysReadable) are a precondition, and only where the source reaches `int()`. For the bulk assignment and the month listing, that is once the month is valid and the collection is non-empty. For clearing, which has no collection check, it is once the month is valid. The month listing only requires it of keys whose ink exists.
- Years and the ink indices of the collection are natural numbers. The ink indices of a language model's plan are integers: a negative index is modelled, and it is reported among the invalid indices.
- Organizer.ValidateMonthlyAssignments takes a well-shaped plan: `monthly_themes` is absent or an object, each month entry is an object, and each `ink_indices` is absent or a list of integers. Other shapes are not modelled:
  - a `null` `monthly_themes` makes the source raise TypeError at the key test;
  - a `null` or non-object month entry makes `data.get` raise AttributeError;
  - a number for `ink_indices` raises TypeError;
  - a string for `ink_indices` is iterated character by character;
  - non-integer elements (floats, strings, lists) are not modelled.
- `extract_ink_info` (assignment_logic.py:9-35) is not part of this model. It copies display fields with the defaults `"Unknown"`, `""` and `0`. Tool results carry ink indices. An ink keeps whether its name and color were present; a missing brand is modelled as `""`, and name searches read a missing name as `""`, as `ink.get("name", "")` does.
- Case folding is ASCII `lower()` only, without Unicode case mapping. `strip()` uses ASCII whitespace.
- Text.PyInt models `int()` for an ASCII sign and ASCII digits only. Python also accepts underscores between digits (`"0_5"` is 5) and non-ASCII decimal digits, and the model reads such fields as not numbers. So a key like `2026-01-0_5` is excluded by DaysReadable, where the source reads day 5, and a key like `2_026-01-05` is not counted by KeyMonth, where the source counts it.
- Facade.SortByDay: `list.sort` is stable, but the model does not state stability. The entries it sorts have distinct dates.
- Facade.OfferFor: `session_idx_to_date` keeps the last date listed for an ink bound to several session dates. The model reports some session date of that ink, not necessarily that one, because dict iteration order is not modelled.
- Engine.MoveInk: the already-assigned failure does not carry the date the ink is assigned to, because that comes from dict iteration order.
- The wording of messages is not modelled. Failures are datatype constructors.
- Facade.ToolFacade.GetCurrentAssignmentsSummary: a merged key that splits into a valid year and an out-of-range month raises KeyError in the source. Excluding such keys is a precondition here, but only for a non-empty collection, since an empty one is answered before the loop.
- Shiny wiring, modals, rendering, the LLM and HTTP clients, the disk cache, prompts and streaming are not part of this model. So are `get_chat_system_prompt` and the rest of llm_organizer.py.
- The save format written by app.py is modelled only as `AppHelpers.SaveFormat`, the dict that `parse_session_data` reads.
- Messages reporting `datetime.strptime` errors are not modelled. Neither is any year outside 1000..9999 in the parse round trip.
