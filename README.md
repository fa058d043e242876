# Startup prospecting pipeline — a Dafny model of its core

The repository prospects AI startups in Latin America for the NVIDIA Inception
programme, keeps them in one shared spreadsheet, and shows them on a
dashboard. Three pieces of it touch the spreadsheet and carry the logic
this model captures:

- **The write path in `main.py`.** The "Spreadsheet Update Tool" receives
  one startup as JSON. It rejects startups whose country is not one of the
  twenty Latin American countries, startups already in the sheet, records
  without a name, and startups older than ten years (the founding year is
  the first `19xx`/`20xx` word found in the year field). It appends every
  other record as an eleven-cell row and replies with a message saying which
  case applied. Before that, the prospecting step merges the agents'
  comma-separated name lists into one set of stripped, non-empty names.
- **The cleanup script `cleanup_sheets.py`.** It scans the sheet and flags
  every record whose lower-cased, stripped country contains a
  United-States fragment, or whose sector contains an investment-firm
  fragment. Once the operator answers `s`, it deletes the flagged rows from
  the highest row number down.
- **The dashboard `app.py`.** It loads the sheet and turns blanks and the
  placeholder `Não encontrado` into missing values. It reads the founding
  year as a number and derives the age. It computes the headline tallies
  (total, top country, top sector, recent startups) and filters by
  country, year range and sector. It keeps a per-session report list with
  one entry per startup name, and reads Gemini's comma-separated reply
  naming three similar startups.

The worksheet is a `Sheets.Worksheet` object whose `rows` field the
operations update in place: `append_row` appends, and `delete_rows` removes
one 1-based row. `find` and `get_all_records` are functions over the rows.
The clock, the operator's answer, the parsed JSON and Gemini's reply are
parameters.

Modules:

| file | module | contents |
|---|---|---|
| common.dfy | `Common` | `Option`, reversal, order-preserving filtering and its lemmas |
| text.dfy | `Text` | the Python string operations used: `strip`, `lower`, `split`, `join`, `in`, `str(n)`, `int(s)` |
| sheets.dfy | `Sheets` | the worksheet, `find`, record field lookup, column names |
| startup_sheet.dfy | `StartupSheet` | the save tool of `main.py` and the name consolidation |
| cleanup.dfy | `Cleanup` | the flag rule and the two-phase sweep of `cleanup_sheets.py` |
| dashboard.dfy | `Dashboard` | loading, tallies, filters, report list and reply parse of `app.py` |

## Model

| member | source | states |
|---|---|---|
| Text.LeadingSpace | main.py:234 | the leading whitespace run ends at the end of the string or at a character that is not whitespace |
| Text.TrailingSpace | main.py:234 | the trailing whitespace run starts at the start of the string or just after a character that is not whitespace |
| Text.LeadingRun | main.py:234 | every character of the leading run is whitespace |
| Text.TrailingRun | main.py:234 | every character of the trailing run is whitespace |
| Text.Trim | main.py:234 | `strip()` returns a slice of the input that starts where the leading whitespace run ends; the result neither starts nor ends with whitespace |
| Text.TrimWhitespace | main.py:234 | what `strip()` cuts away on either side is whitespace, and the result is empty exactly when the input is all whitespace |
| Text.TrimIsStrippedSlice | main.py:234 | `strip()` cuts off the leading whitespace run and a whitespace-only tail, nothing else |
| Text.StrippedHasNoRuns | main.py:234 | a string that `strip()` leaves unchanged has no leading or trailing whitespace |
| Text.TrimAt | main.py:234 | each character of the stripped string is the original's character at the same offset from where the leading run ends |
| Text.TrimIdempotent | main.py:234 | stripping a stripped string changes nothing |
| Text.TrimChars | main.py:234 | every character of a stripped string occurs in the original |
| Text.Lower | cleanup_sheets.py:42-43 | `lower()` keeps the length and maps every character through the ASCII and Latin-1 lower-case mapping |
| Text.ContainsIff | cleanup_sheets.py:46 | the substring test `t in s` holds exactly when `t` occurs at some position of `s` |
| Text.Split | main.py:232 | `split(',')` always yields at least one piece and no piece holds the separator |
| Text.JoinSplit | main.py:232 | joining the pieces of a split with the separator gives back the input |
| Text.SplitJoin | main.py:232 | splitting a join of separator-free pieces gives back the pieces |
| Text.ParseDecimal | app.py:81 | a numeric reading exists exactly for a non-empty string of decimal digits |
| Text.ParseNatToString | app.py:81 | reading back the decimal text of a number gives the number |
| Text.NatToStringDecimalValue | main.py:77 | writing out the value of a digit string without a leading zero gives back the string |
| Sheets.FindRow | main.py:57-60 | `find` reports the 1-based number of the first row holding a cell equal to the value, or nothing exactly when no row holds one |
| Sheets.FindAfterAppend | main.py:58-60 | a row appended to a sheet where the value occurs nowhere is where `find` reports it afterwards |
| Sheets.LastColumn | cleanup_sheets.py:41-43 | a record's field comes from the right-most column of that header, and there is none exactly when no column has it |
| Sheets.Field | cleanup_sheets.py:41-43 | a record's value under `key` is a blank when no column is called `key`, and a non-blank value comes from some column called `key` |
| Sheets.FieldIsRightmostCell | cleanup_sheets.py:41-43 | a record's value under `key` is the cell in the right-most column of that header, or a blank when the row is too short for it |
| Sheets.Worksheet.AppendRow | main.py:106 | `append_row` adds the row below the last one and changes nothing else |
| Sheets.Worksheet.DeleteRow | cleanup_sheets.py:66 | `delete_rows(i)` removes sheet row `i` and moves the rows below it up by one |
| StartupSheet.FirstYearFrom | main.py:75 | the search finds the left-most position at or after `k` where `\b(19\|20)\d{2}\b` matches, or reports that none matches |
| StartupSheet.FoundingYear | main.py:75-77 | a year is read exactly when the pattern matches somewhere; it lies in 1900..2099 and is the number written at the left-most match |
| StartupSheet.YearTextRoundTrip | main.py:75-77 | any year from 1900 to 2099 written on its own is read back as that year |
| StartupSheet.CheckedYear | main.py:70-77 | the age check has a year exactly when the year field is present, neither empty nor the placeholder, and the pattern matches in it; that year lies in 1900..2099 and is the `FoundingYear` of the field, the left-most match |
| StartupSheet.CheckedYearIsFirstMatch | main.py:75-77 | the year the age check uses is written out by a match of the pattern in the field, and no match starts before it |
| StartupSheet.LeadingYearWins | main.py:75-77 | a field that opens with a year gives that year whatever later years it mentions, as `re.search` stops at the first match |
| StartupSheet.BuildRow | main.py:91-103 | the saved row has eleven cells: each column key's value, the placeholder for a missing key (an empty text for the name and the country), and the timestamp last |
| StartupSheet.Decide | main.py:47-112 | invalid JSON and non-object JSON are errors; a country outside the list, and only such a country, is rejected naming it; a duplicate carries the row `find` reports; a name rejection has an empty or placeholder name; an age rejection has an age over 10 and the year read; a save has passed every guard, and its row is `BuildRow` of the fields (each field under its column key, the timestamp last) |
| StartupSheet.DecideComplete | main.py:56-107 | for a Latin American country the guards decide in order: a name `find` locates is a duplicate at that row even when it is empty or the placeholder; otherwise an empty or placeholder name is rejected; otherwise an age over 10 is rejected with that age and year; otherwise the record is saved as `BuildRow` of its fields |
| StartupSheet.AgeBoundary | main.py:79-82 | a startup exactly 10 years old is saved and one 11 years old is rejected |
| StartupSheet.NoYearNoAgeRejection | main.py:70-88 | a record whose year field holds no year is never rejected on age |
| StartupSheet.SaveTwiceIsDuplicate | main.py:56-60 | submitting a saved record again is reported as a duplicate at the row just written |
| StartupSheet.Message | main.py:53-112 | replies start with `REJEITADO: ` for rejections, `DUPLICATA EVITADA: '<name>'` for duplicates, `✅ SUCESSO: ` for saves and `ERRO` for errors |
| StartupSheet.SpreadsheetTool | main.py:41-112 | the sheet gains exactly the decided row when the record is saved and is unchanged otherwise; the reply is the outcome's message |
| StartupSheet.AddOutputNames | main.py:229-236 | the inner loop adds to the set exactly the stripped, non-empty comma-separated pieces of one task output |
| StartupSheet.ConsolidateNames | main.py:226-236 | the nested loops collect exactly the stripped, non-empty comma-separated pieces of all task outputs |
| StartupSheet.CleanedOrigin | main.py:233-236 | every name collected from a list of pieces is the non-empty cleaned form of one of them |
| StartupSheet.CleanedCollected | main.py:233-236 | the non-empty cleaned form of every piece is collected |
| StartupSheet.GatheredOrigin | main.py:229-236 | every name in the union over the outputs comes from one of the outputs |
| StartupSheet.GatheredCollected | main.py:229-236 | every output's names are in the union over the outputs |
| StartupSheet.CollectedNameOrigin | main.py:229-236 | every collected name is the stripped form of some piece of some task output |
| StartupSheet.EveryPieceCollected | main.py:229-236 | every non-empty stripped piece of every task output is collected |
| StartupSheet.CandidateNameIsClean | main.py:232-236 | every collected name is non-empty, already stripped and free of commas |
| Cleanup.MatchesAny | cleanup_sheets.py:46-49 | `any(term in text for term in terms)` holds exactly when some term occurs in the text |
| Cleanup.Normalize | cleanup_sheets.py:42-43 | `lower().strip()` is the slice of the lower-cased input left after cutting its leading whitespace run and a whitespace-only tail; the slice has no whitespace at either end and no upper-case ASCII letter |
| Cleanup.NormalizeIgnoresCase | cleanup_sheets.py:42-43 | lower-casing a value before normalising it changes nothing, so the rule ignores case |
| Cleanup.UsaRuleMeaning | cleanup_sheets.py:42-46 | the country rule holds exactly when one of the six country fragments occurs in the normalised country |
| Cleanup.VcRuleMeaning | cleanup_sheets.py:43-49 | the sector rule holds exactly when one of the twenty-four sector fragments occurs in the normalised sector |
| Cleanup.FlaggedMeaning | cleanup_sheets.py:41-51 | a record is marked exactly when a country fragment occurs in its normalised country or a sector fragment occurs in its normalised sector |
| Cleanup.Reason | cleanup_sheets.py:52 | the logged reason is "EUA" exactly when the country rule matches, even if the sector rule matches too, and "Venture Capital" otherwise |
| Cleanup.SubstringRuleIsBroad | cleanup_sheets.py:21 | because matching is by substring, a country normalising to "austrália" contains "us" and is removed with reason "EUA" |
| Cleanup.FlaggedRows | cleanup_sheets.py:40-56 | the scan lists at most one row number per data record |
| Cleanup.Kept | cleanup_sheets.py:65-66 | the records left after the deletions number at most the records, and none of them is flagged |
| Cleanup.SweepTargets | cleanup_sheets.py:35-56 | the rows the sweep would delete ascend strictly, each is a sheet row holding a flagged record, and every flagged record's sheet row is among them |
| Cleanup.Swept | cleanup_sheets.py:58-67 | a confirmed sweep leaves no more rows than before, and the header stays first |
| Cleanup.FlaggedRowsSound | cleanup_sheets.py:40-56 | the collected row numbers ascend, and each is `j + 2` for a flagged data record `j` |
| Cleanup.FlaggedRowsComplete | cleanup_sheets.py:40-56 | every flagged data record's row number is collected |
| Cleanup.FlaggedRowsNone | cleanup_sheets.py:59-71 | when no record is flagged, nothing is collected |
| Cleanup.FlaggedPlusKept | cleanup_sheets.py:58-67 | every data record is either flagged or kept |
| Cleanup.SweptSize | cleanup_sheets.py:58-67 | a confirmed sweep removes as many rows as it flagged |
| Cleanup.SweepIdempotent | cleanup_sheets.py:58-67 | a swept sheet keeps its header, its records are a subsequence of the original ones, and a second sweep flags nothing |
| Cleanup.PeelLargest | cleanup_sheets.py:65 | the largest collected row below a point is a flagged record, and every record between it and that point is unflagged |
| Cleanup.KeepAcross | cleanup_sheets.py:65-66 | deleting a flagged record that is followed only by unflagged ones leaves those records in place |
| Cleanup.RemainingAtStart | cleanup_sheets.py:65-66 | before any deletion every data row is in place below the header |
| Cleanup.RemainingAtEnd | cleanup_sheets.py:65-66 | once no flagged row is left to delete, the sheet is the header followed by exactly the kept rows |
| Cleanup.DeleteStep | cleanup_sheets.py:65-66 | each deletion, taken in descending order, removes exactly the next flagged record and leaves the rows still to delete at their numbers |
| Cleanup.CollectFlagged | cleanup_sheets.py:40-56 | the scan loop returns the row numbers of the flagged records, in strictly increasing order |
| Cleanup.DeleteFlagged | cleanup_sheets.py:65-66 | deleting in descending order leaves the header followed by exactly the unflagged records in their original order |
| Common.ReverseOfIncreasing | cleanup_sheets.py:65 | `sorted(rows, reverse=True)` of the increasing scan result is its reversal, which strictly decreases |
| Common.ReversePermutes | cleanup_sheets.py:65 | reversal keeps every row number exactly as often as it occurs |
| Common.Reverse | cleanup_sheets.py:65 | the reversal has the same length and holds at position `i` the element at position `n - 1 - i` |
| Cleanup.Sweep | cleanup_sheets.py:35-71 | the scan finds the flagged rows; only when there are some and the lower-cased answer is `s` are they deleted, in strictly decreasing order, leaving the swept sheet; otherwise the sheet is unchanged |
| Dashboard.YearOf | app.py:81 | the numeric year exists exactly when the year cell is present and reads as a number, and it is never negative |
| Dashboard.YearRoundTrip | app.py:81 | a year written out in decimal is read back as that year |
| Dashboard.CleanRecord | app.py:80-85 | a record keeps exactly the header's fields that are neither blank nor the placeholder, with their values; its age is present exactly when its year is, and year plus age is the current year |
| Dashboard.NoMissingValueKept | app.py:80 | no cleaned record holds a blank or a placeholder |
| Dashboard.LoadData | app.py:76-85 | loading fails exactly when the sheet has no data row or no year column; otherwise the table's columns are the header's names and its records are the cleaned data rows in order |
| Dashboard.Present | app.py:94 | a column's present values number at most the records, there are none exactly when every record misses that column, and each comes from some record |
| Dashboard.PresentCounts | app.py:94-95 | every value occurs among the present values exactly as often as there are records holding it in that column, which is what `value_counts()` counts |
| Dashboard.BestOf | app.py:95-96 | the chosen candidate is one of the candidates, and occurs at least as often as each of them |
| Dashboard.MostCommon | app.py:94-107 | the top value is one of the values, with its frequency, and no value is more frequent; it is "N/A" with 0 when every value is missing |
| Dashboard.CalcKpis | app.py:90-113 | the tallies exist exactly when the country, sector and year columns do; the total is the record count, the top country and sector are the most common present values, and the recent count never exceeds the total |
| Dashboard.TopValueMeaning | app.py:94-106 | a column's top tally is "N/A" with 0 when no record holds a value there; otherwise its count is at least 1, is the number of records holding its value, and no value is held by more records |
| Dashboard.TopTalliesMeaning | app.py:94-106 | the KPI top country and top sector each carry the largest number of records sharing one value of that column, and that count is the number of records holding the named value |
| Dashboard.RecentBoundary | app.py:110-111 | a startup founded three years back counts as recent; one founded four years back and one without a year do not |
| Dashboard.ApplyFilters | app.py:257-268 | the filtered view is no longer than the records, and each record in it is one of the records and meets the whole selection |
| Dashboard.FiltersAreOneFilter | app.py:257-268 | the country, year and sector filters applied in turn equal one filter by the whole selection |
| Dashboard.FilterSpec | app.py:257-268 | the filtered view is a subsequence of the records, and holds exactly the records whose country is selected (when any are), whose year lies in the inclusive range, and whose sector is the chosen one (unless "Todos") |
| Dashboard.AddIfAbsent | app.py:203-207 | after adding, the startup's name is in the report; the report grows by the startup exactly when its name was absent, and names stay unique |
| Dashboard.Report.Add | app.py:203-207 | the button adds the startup exactly when no entry carries its name, and keeps the names unique |
| Dashboard.FirstIndex | app.py:284 | the position found holds the entry and no earlier position does |
| Dashboard.RemoveFirst | app.py:284 | removal takes out the first entry equal to the startup and keeps the others in order |
| Dashboard.RemoveFirstCounts | app.py:284 | removal shortens the report by one and takes out exactly one occurrence of the startup |
| Dashboard.RemoveKeepsUnique | app.py:284 | removing an entry keeps the names unique |
| Dashboard.Report.Remove | app.py:284 | the remove button takes out the entry and keeps the names unique |
| Dashboard.Report.Clear | app.py:298 | clearing leaves an empty report |
| Dashboard.Report.constructor | app.py:215-216 | a session starts with an empty report |
| Dashboard.ParseSimilar | app.py:169-170 | the reply yields the stripped comma-separated pieces in order, at most three of them |
| Dashboard.SimilarNamesClean | app.py:169-170 | the reply yields between one and three names, each already stripped and free of commas |
| Dashboard.SimilarRoundTrip | app.py:169-170 | a reply listing one to three stripped, comma-free names as `a, b, c` is read back as exactly those names |

## Left out

- The CrewAI agents, tasks and their prompts: model orchestration with no checkable meaning. The task outputs and the JSON handed to the save tool are inputs.
- The Gemini calls (the chat answer and `generate_content`), and the Streamlit layout, CSS, charts and buttons: UI and a foreign service. Gemini's reply is an input of `Dashboard.ParseSimilar`.
- The connection to Google Sheets and its failure paths. The worksheet is the `Sheets.Worksheet` object.
- `datetime.now()` and `input()`: the current year, the timestamp and the operator's answer are parameters.
- Printing and logging, including the cleanup script's per-record report and the dashboard's messages.
- `json.loads` and non-text JSON values: the save tool receives the already-parsed input, with object values as text.
- Text beyond Latin-1: `Text.Lower` and the `\w` class of `StartupSheet.YearAt` cover ASCII and Latin-1 only, and `\d` matches ASCII digits only.
- `Sheets.FindRow`: does not model a failure of `find` itself, which the source swallows and treats as "not found".
- `Sheets.Field`: every cell is text, so it does not model the numeric conversion `get_all_records` applies to number-like cells.
- `Cleanup.Sweep`: after that conversion, a number-like cell raises in the scan, and the handler at cleanup_sheets.py:73 ends the script before anything is deleted; the model flags and deletes as if the cell were text. This covers a name cell, where `.strip()` raises at cleanup_sheets.py:41 (a startup called "99"), and a country or sector cell, where `.lower()` raises at lines 42-43.
- `Sheets.Field`: when the header repeats a name, including several blank header cells, recent gspread versions refuse to build the records, while the model reads the right-most column of that name.
- `Sheets.FindRow`: `find` pads rows shorter than the sheet's width with empty cells, so looking up an empty name hits any short row; the model searches the cells each row has and does not pad.
- `Dashboard.YearOf`: reads only plain digit strings, so it does not model signs, decimals or surrounding spaces, which pandas' numeric conversion would accept.
- `Dashboard.MostCommon`: breaks ties between equally frequent values by their order, while pandas leaves that order unspecified; the contract states only the frequency property.
- `Dashboard.NameOf`: a startup with no name is treated as different from every named entry, while the source's comparison of a missing value with a name raises an error.
- `Dashboard.ParseSimilar`: does not model the error path that returns a single "Erro: ..." entry when the Gemini call or the startup lookup fails.
- The dashboard's slider bounds, default country selection and CSV export: UI defaults and output formatting.
- The ordering of `list(set)` when the consolidated names are handed on: it depends on hashing, so only the set is modelled.
