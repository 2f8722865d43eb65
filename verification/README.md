# Person birthdates and diagnosis reports

This project models two parts of a Rails patient-registration application.

The first part is the `Person` model's rules that do not touch the database:
- how `set_birthdate` turns a year, month and day into a birthdate, using placeholder dates when parts are unknown;
- how `set_birthdate_by_age` estimates one from an age;
- how `age` and `age_in_months` read it back;
- which pattern `birthdate_formatted` picks;
- how the birth fields of `demographics` round-trip through `set_birthdate`;
- how `create_from_form` splits a form, normalises the gender, chooses a birthdate rule and plans the records it creates.

The second part is `ReportController`:
- the date-range check shared by the weekly, disaggregated and referral reports;
- the weekly report's division of the range into weeks, with per-week counts, totals and a ranking by frequency;
- the disaggregated report's reordering of diagnoses by frequency.

Modules, one per file:

| file | module | contents |
|---|---|---|
| `values.dfy` | `Values` | request values (nil, string, integer) and Ruby's `to_i`, `to_s` and `blank?` |
| `calendar.dfy` | `Calendar` | civil dates, `Date.new` with negative month/day counts, day numbers and weekdays |
| `people.dfy` | `People` | birthdates, age, display pattern, demographics birth fields, gender codes |
| `person_form.dfy` | `PersonForm` | `create_from_form` |
| `hashes.dfy` | `Hashes` | Ruby hashes from names to counts, and the descending sort |
| `weeks.dfy` | `Weeks` | the weeks of the weekly report |
| `reports.dfy` | `Reports` | range check, weekly report, disaggregated report |

Conventions:
- Report dates are day numbers, with 1 January 1970 as day 0 (a Thursday). `Calendar.DayNumber` converts a civil date, and `Calendar.DayNumberOrder` proves that day numbers order dates the way the calendar does.
- Operations that raise in Ruby return an error value: `People.BirthError`, `PersonForm.FormError` or `Reports.RangeError`.
- The current date, the session date and the creation time are parameters.
- The rows the database queries return are inputs.
- The names of the attribute and identifier types that exist are inputs.

Three behaviours of the code are easy to misread:
- **Week boundaries.** Weeks are not seven-day blocks counted from the start date. The first week ends on the Sunday after the start date, and every later week starts on a Monday. For 1 to 14 January 2021 (a Friday to a Thursday), the weeks are 1–3, 4–10 and 11–14 January (`Weeks.JanuaryWeeks`).
- **Ties in the ranking.** Ruby's `sort` is not stable, so diagnoses with equal counts may come out in any order. The contracts promise only a reordering in which counts never increase.
- **A day of zero.** `set_birthdate` treats only the integer 0 as a missing day. The text "0" reaches `Date.new` and is refused (`InvalidDate`).

## Model

| member | source | states |
|---|---|---|
| Calendar.Civil | app/models/person.rb:83-89 | `Date.new`: a valid date is built as given, in the given year; month 0, a month beyond ±12, day 0 or a day past the month's end is refused; a negative day −k counts back from the month's end, is accepted exactly when k is at most the month's length, and gives day length − k + 1 |
| Calendar.CivilNegativeMonth | app/controllers/report_controller.rb:6-7 | a month from −12 to −1 counts back from December: it builds the same date as month m + 13 |
| Values.StrToI | app/models/person.rb:78 | `String#to_i`: white space alone reads as 0; text starting with a digit reads as a number of at least 0; text starting with anything but white space, a digit or a sign reads as 0 |
| Values.RadixPrefixSkipped | app/models/person.rb:78 | `to_i` in base 10 skips a "0d" or "0D" prefix, with or without a minus sign: the digits after it read as the number they denote |
| Values.ToI | app/models/person.rb:83-89 | a blank value reads as 0 |
| Values.ShowIntToI | app/models/person.rb:83-89 | `to_i` reads every integer back from its `to_s` text |
| Values.Blank | app/models/person.rb:85 | Rails `blank?` (a definition): nil, or text of white space only; an integer is never blank |
| Values.FilterCounts | app/models/person.rb:361-362 | skipping entries keeps each accepted entry as often as it occurs and drops the others; this is how blank identifiers and attribute slots are skipped |
| Calendar.DayNumberOrder | app/controllers/report_controller.rb:8 | day numbers compare exactly as dates do: earlier date ⇔ smaller number, same date ⇔ same number |
| People.ResolveMonth | app/models/person.rb:77-80 | nil resolves to 0 and only nil does; a nonzero number resolves to itself; every English month name or abbreviation resolves to its month; any other nonzero result is one of those two cases |
| People.SetBirthdate | app/models/person.rb:74-92 | no year ⇔ `MissingYear`; results are valid dates in the given year and only placeholders are estimated; an unknown month gives 1 July (estimated); an unknown day gives the 15th (estimated); with a resolved month, `Date.new` decides: the result is `InvalidDate` exactly when it refuses the year, month and day (the 15th for an unknown day), and otherwise the date it builds, estimated exactly when the day is unknown; an unresolvable month is an error; an exact result means month and day were both given |
| People.SetBirthdateByAge | app/models/person.rb:94-97 | the birthdate is an estimated 1 July (month 7, day 1), a valid date `age` years before the reference year |
| People.TwoTableIndex | app/models/person.rb:79-80 | looking a month up by name, then by abbreviation: nil gives position 0 and only nil does; any other position found is 1 to 12, and the name or abbreviation at that position is the value |
| People.DayUnknown | app/models/person.rb:85 | the day counts as not given when it is blank, the text "Unknown" or the integer 0 (a definition, used by `People.SetBirthdate` and `People.TypedDayIsKnown`) |
| People.CompletedYears | app/models/person.rb:43 | the age formula counts exactly the anniversaries reached: the k-th has come by today and the (k+1)-th has not |
| People.Age | app/models/person.rb:40-52 | nil exactly without a birthdate; otherwise the completed years, except an estimated 1 July birthdate recorded this year before July, which counts `today.year - birth year` |
| People.AgeOfAgeEstimate | app/models/person.rb:46-51 | a person whose birthdate was estimated from an age this year has exactly that age for the rest of the year |
| People.AgeInMonths | app/models/person.rb:54-58 | the month count, less one when the day of the month is not yet reached, divided by 12 gives the age in whole years |
| People.Formatted | app/models/person.rb:60-72 | exact birthdates show the full date; estimated 1 July or 1 January show the year only; an estimated 15th shows month and year; any other estimated date gives nil |
| People.DemographicsBirth | app/models/person.rb:99-110 | the year is always reported; the day is "Unknown" exactly for estimated birthdates; the month is "Unknown" exactly for the estimated 1 July; otherwise the numbers |
| People.DemographicsRoundTrip | app/models/person.rb:99-110 | feeding the demographics birth fields back to `set_birthdate` reproduces a valid birthdate exactly when it is exact or on a placeholder |
| People.SetBirthdateRoundTrip | app/models/person.rb:74-92 | every birthdate `set_birthdate` records survives the round trip through `demographics` |
| People.FormattedMatchesDemographics | app/models/person.rb:60-110 | for birthdates `set_birthdate` can produce, the display shows the day and month exactly when `demographics` reports them as numbers |
| People.DayTextZero | app/models/person.rb:85-89 | the text "0" is not an unknown day: with a year and a resolved month, it reaches `Date.new` and gives `InvalidDate` |
| People.TypedNumbersAgree | app/models/person.rb:78-89 | year, month and a nonzero day typed as decimal text give the same result as the integers |
| People.NormalizeGender | app/models/person.rb:316-320 | "Female" becomes "F", "Male" becomes "M", anything else is kept |
| People.Sex | app/models/person.rb:444-452 | "M" ⇔ "Male", "F" ⇔ "Female", anything else ⇔ nil |
| People.SexInvertsNormalize | app/models/person.rb:444-452 | `sex` after normalisation yields "Male" for "Male"/"M", "Female" for "Female"/"F", nil otherwise; the full words read back as themselves |
| PersonForm.BirthdayParams | app/models/person.rb:311-312 | `birthday_params` rejects exactly the keys that match a separate key or "gender": every key it keeps comes from the form with the form's value and matches none of them, and every form key that matches none of them is kept |
| PersonForm.PersonParams | app/models/person.rb:311-313 | `person_params` rejects exactly the keys that match a separate key, "birth_", "age_estimate" or "occupation": every key it keeps comes from the form with the form's value and matches none of them, and every form key that matches none of them is kept |
| PersonForm.BirthdayKeyKept | app/models/person.rb:311-312 | a key that lacks a letter of every separate key no longer than itself, and a letter of "gender", keeps its form value in `birthday_params` |
| PersonForm.FormKeysKept | app/models/person.rb:311-313 | the key filters keep `gender` for the person, and `birth_year`, `birth_month`, `birth_day` and `age_estimate` for the birthdate |
| PersonForm.ReferenceDate | app/models/person.rb:326 | (a definition) the date an age is counted back from: the session date when there is one, else today |
| PersonForm.FormBirthdate | app/models/person.rb:324-330 | no birthday parameters: no birthdate; a year of "Unknown": an estimated 1 July, `age_estimate` years before the reference date; any other year: `set_birthdate`'s birthdate or error for the form's year, month and day |
| PersonForm.FormAgeEstimate | app/models/person.rb:325-326 | year "Unknown": an estimated 1 July, `age_estimate` years before the session date, or today when there is none |
| PersonForm.AddressRecords | app/models/person.rb:334 | an address record exactly when the `addresses` parameter is present and not empty |
| PersonForm.AttributeRecords | app/models/person.rb:336-350 | an attribute is recorded under a type exactly when a slot of that type is registered and its parameter is not blank, with that parameter as value |
| PersonForm.AttributeRecordsInOrder | app/models/person.rb:336-350 | exactly one attribute record per filled slot, in slot order, each with the slot's type and its parameter's value |
| PersonForm.IdentifierType | app/models/person.rb:363 | the identifier's own type when registered, else "Unknown id"; none exactly when neither is registered |
| PersonForm.IdentifierRecords | app/models/person.rb:361-365 | failure exactly when a non-blank identifier has no type; otherwise a record for each non-blank identifier, filed under its type, and no other |
| PersonForm.IdentifierRecordsInOrder | app/models/person.rb:361-365 | on success, exactly one record per non-blank identifier, in the order given, each filed under that identifier's type |
| PersonForm.PatientRecords | app/models/person.rb:358-369 | no `patient` parameter: nothing; no identifiers: the patient record alone; otherwise the patient record followed by exactly the identifier records, failing exactly when they fail |
| PersonForm.CreateFromForm | app/models/person.rb:307-372 | succeeds exactly when the birthdate rule and the patient records both succeed; fails with the birthdate rule's error first, else with the identifiers' error; the person's gender is the normalised form gender and its birthdate the chosen rule's; records are created in order: name, address, attributes, patient and identifiers |
| PersonForm.CreatedSex | app/models/person.rb:316-320 | a created person's `sex` is the gender word the form gave, spelt out or as a code |
| Hashes.Put | app/controllers/report_controller.rb:60 | `h[k] = v`: `k` now maps to `v`, other keys keep their values, an existing key keeps its place, a new key is appended |
| Hashes.PutKeepsNoDup | app/controllers/report_controller.rb:60 | assignment never makes a key occur twice |
| Hashes.SumKey | app/controllers/report_controller.rb:74-78 | the walk over one week's table adding up the values stored under a name (no contract of its own): `Hashes.SumKeyIsScore` and `Hashes.SumKeyAbsent` state what it adds up |
| Hashes.SumKeyAbsent | app/controllers/report_controller.rb:74-78 | a name that is not a key adds nothing |
| Hashes.SumKeyIsScore | app/controllers/report_controller.rb:74-78 | walking every pair and adding the values under a key gives the value stored under it |
| Hashes.SortDesc | app/controllers/report_controller.rb:88 | the sort yields the same pairs, counts never increasing |
| Hashes.RankByCount | app/controllers/report_controller.rb:88-89 | the ranked names are the hash's keys, each once, with stored counts never increasing |
| Weeks.Monday | app/controllers/report_controller.rb:36 | `monday`: a Monday at most six days before the day |
| Weeks.NextStart | app/controllers/report_controller.rb:36 | the next week starts on a Monday within seven days after the day |
| Weeks.StartsFrom | app/controllers/report_controller.rb:34-42 | the loop collects days within the range, beginning with the day it starts from, and collects nothing exactly when that day is past the end |
| Weeks.StartsFromStep | app/controllers/report_controller.rb:35-36 | each day collected after the first is the Monday of the week after the one before |
| Weeks.StartsFromLast | app/controllers/report_controller.rb:34-36 | the loop stops because the week after the last one collected starts past the end date |
| Weeks.StartsFromComplete | app/controllers/report_controller.rb:34-42 | every Monday after the day the loop starts from, up to the end date, is collected |
| Weeks.WeekStarts | app/controllers/report_controller.rb:29-42 | the weeks lie within the range and the first starts on the start date; there are none exactly when the range is empty |
| Weeks.WeekStartsMonday | app/controllers/report_controller.rb:36 | every week but the first starts on a Monday |
| Weeks.WeekStartsIncreasing | app/controllers/report_controller.rb:34-42 | a later week starts on a strictly later day, so no day starts two weeks |
| Weeks.WeekStartsComplete | app/controllers/report_controller.rb:34-42 | every Monday in the range starts one of the weeks |
| Weeks.WeekEnd | app/controllers/report_controller.rb:48-52 | a week ends on the Sunday before the next start or on the end date, whichever is earlier |
| Weeks.SameWeek | app/controllers/report_controller.rb:48-53 | every day of a report week lies in the same Monday-to-Sunday week as its first day |
| Weeks.Tiling | app/controllers/report_controller.rb:34-53 | the weeks tile the range: each week but the last is followed by one starting the day after it ends, and the last ends on the end date |
| Weeks.JanuaryWeeks | app/controllers/report_controller.rb:34-53 | 1–14 January 2021 falls into weeks 1–3, 4–10 and 11–14 January |
| Reports.ParseDate | app/controllers/report_controller.rb:6-7 | a parsed date is a valid date in the year given; numbers that form a valid date are parsed as given; month 0 or day 0 parses to nothing |
| Reports.CheckRange | app/controllers/report_controller.rb:5-12 | accepted ranges are two valid dates parsed from the parameters, in order; refused as reversed exactly when both parse and the end precedes the start; refused as unparsable exactly when a date does not parse (the same check opens lines 97-103 and 153-159) |
| Reports.RangeNotice | app/controllers/report_controller.rb:9 | the notice 'Start date is greater that end date' appears exactly for a reversed range |
| Reports.RowsIn | app/controllers/report_controller.rb:53 | a week's rows are exactly the rows dated within it |
| Reports.Recorded | app/controllers/report_controller.rb:21-27 | the query returns exactly the non-voided observations dated within the range |
| Reports.RowsInCounts | app/controllers/report_controller.rb:53 | a week's rows keep each row dated within the week as often as it occurs, and no other row |
| Reports.RecordedCounts | app/controllers/report_controller.rb:21-27 | the query keeps each non-voided observation dated within the range as often as it occurs, and no other |
| Reports.Matches | app/controllers/report_controller.rb:56-59 | the count is at most the number of rows |
| Reports.MatchesCounts | app/controllers/report_controller.rb:56-59 | the count is the number of rows carrying the code, each counted once |
| Reports.MatchesNone | app/controllers/report_controller.rb:56-59 | the count is zero exactly when no row carries the code |
| Reports.CountSplit | app/controllers/report_controller.rb:53 | splitting a date range splits the count of rows within it |
| Reports.LastNamed | app/controllers/report_controller.rb:60 | the diagnosis a hash keeps under a name exists exactly when some diagnosis has that name; it has that name, and no later diagnosis has it |
| Reports.Tabulate | app/controllers/report_controller.rb:55-61 | filling a hash by diagnosis name: no key twice, and each name maps to the value of the last diagnosis so named, or is absent |
| Reports.LastNamedUnique | app/controllers/report_controller.rb:19 | with one row per name, as the grouped query returns, each name keeps its own diagnosis |
| Reports.RankedNames | app/controllers/report_controller.rb:88-89 | the ranking names exactly the diagnoses' names |
| Reports.WeekTable | app/controllers/report_controller.rb:55-61 | a week's `@diagnoses_hash` holds no name twice |
| Reports.WeekTableAt | app/controllers/report_controller.rb:55-61 | a week's table holds exactly the diagnoses' names, each with the number of the week's rows carrying the code of the last diagnosis so named |
| Reports.WeekData | app/controllers/report_controller.rb:44-63 | one entry per week, in order, keyed by its start |
| Reports.WeekDataTable | app/controllers/report_controller.rb:44-62 | each week's entry holds the table of the rows dated within that week |
| Reports.WeekCounts | app/controllers/report_controller.rb:44-61 | each week's table holds, per diagnosis, the number of that week's rows carrying its code |
| Reports.WeekSum | app/controllers/report_controller.rb:72-80 | the walk over `@data_hash` for one day (no contract of its own): `Reports.WeekSumAt` and `Reports.WeekSumAbsent` state what it finds |
| Reports.WeekSumAbsent | app/controllers/report_controller.rb:72-80 | the walk for a day on which no week starts finds nothing |
| Reports.WeekSumAt | app/controllers/report_controller.rb:72-80 | the walk over `@data_hash` for one week finds only that week's table |
| Reports.WeekSumCount | app/controllers/report_controller.rb:71-80 | the walk for week k adds up exactly that week's count for the name |
| Reports.WeekAddsAt | app/controllers/report_controller.rb:34-80 | each week lies within the range and its walk over `@data_hash` counts its own days; the next week starts the day after it ends, and the last ends on the end date |
| Reports.TotalOver | app/controllers/report_controller.rb:69-86 | a name's total over the weeks (no contract of its own): `Reports.AddUpFrom` and `Reports.WeeksAddUp` state what it adds up to |
| Reports.AddUpFrom | app/controllers/report_controller.rb:69-86 | adding the walks of the weeks from one week on gives the count from that week's start to the end date |
| Reports.WeeksAddUp | app/controllers/report_controller.rb:69-86 | adding the walks of all weeks gives the count over the whole range |
| Reports.WeeklyOver | app/controllers/report_controller.rb:29-89 | the weeks are those of the range; the ranking lists each diagnosis name once, with totals never increasing |
| Reports.WeeklyTotals | app/controllers/report_controller.rb:69-86 | a diagnosis's total is the number of rows in the whole range carrying its code, so the weeks miss and repeat no day |
| Reports.WeeklyReport | app/controllers/report_controller.rb:5-89 | the report fails exactly when the range check fails, and with its error |
| Reports.WeeklyReportCounts | app/controllers/report_controller.rb:13-89 | on an accepted range, the ranking names exactly the recorded diagnoses, each ranked by the non-voided in-range observations carrying its code |
| Reports.Named | app/controllers/report_controller.rb:144-146 | the diagnoses with a given name, and only those |
| Reports.Grouped | app/controllers/report_controller.rb:143-147 | the reordered list holds only diagnoses whose names were ranked |
| Reports.DisaggregatedOver | app/controllers/report_controller.rb:124-147 | the counts hash never holds a name twice |
| Reports.DisaggregatedReport | app/controllers/report_controller.rb:95-147 | the report fails exactly when the range check fails, and with its error |
| Reports.GroupedMultiset | app/controllers/report_controller.rb:141-147 | grouping by distinct names lists each diagnosis with a listed name exactly once |
| Reports.GroupedSorted | app/controllers/report_controller.rb:140-147 | grouping by names in non-increasing count order keeps diagnoses in non-increasing count order |
| Reports.DisaggregatedOrder | app/controllers/report_controller.rb:124-147 | the reordered diagnoses are a permutation of the queried ones, with their names' counts never increasing |
| Reports.DisaggregatedCounts | app/controllers/report_controller.rb:127-136 | each name counts the rows carrying its code; names not among the diagnoses are absent |
| Reports.DisaggregatedReportOrder | app/controllers/report_controller.rb:97-147 | on an accepted range: a permutation of the diagnoses, most frequent names first, each name counting the non-voided in-range observations that carry its code |

## Left out

- Calendar: dates follow the proleptic Gregorian calendar. The Julian dates Ruby uses before the 1582 reform are not modelled.
- Values.StrToI: models white space, sign, the "0d" prefix and digits. Underscores between digits, which Ruby's `to_i` accepts, are not modelled.
- Database access is not modelled: the queries, `save`, `create`, and the name, address and attribute records' other columns. The queries' results are inputs; only their date and voided filters are modelled (`Reports.Recorded`).
- Partial effects: when `create_from_form` raises, the rows already written are not modelled; the model returns only the error. A failing birthdate leaves the person behind. A failing identifier also leaves the name, the address, the attributes, the patient and the earlier identifiers.
- `rescue nil` failures other than a missing attribute type are not modelled. This covers a database error while creating an address or attribute, and `addresses` being nil (which `rescue nil` skips, as the model does).
- Rendering: `birthdate_formatted` is modelled as the choice of `strftime` pattern, not the rendered text.
- `@data_hash` keys: the code keys weeks by the text of their start date and converts that text back with `to_date`. The model keys them by day number, assuming that round trip is exact.
- The referral report's observation query (concept 2227) and facility list are queries only; the model covers only its range check, shared with the other reports through `Reports.CheckRange`.
- Other actions are not modelled: `remote_report`, `select`, PDF generation, the photos controller, and the person model's search, remote lookup and creation, names, addresses and phone numbers.
- Hashes.SortDesc: the order among equal counts is left unspecified, because Ruby's sort is not stable; the model's own tie order is one of the allowed ones.
- People.Formatted: takes a `Birthdate`, so a person without one is outside the model; `birthdate_formatted` raises on such a person, because nil has no `day`.
- People.DemographicsBirth: takes a `Birthdate`, so a person without one is outside the model; `demographics` raises on such a person, because nil has no `month`.
- People.AgeInMonths: its contract relates the month count to whole years only for valid dates; `age_in_months` on a person without a birthdate raises in the source and is excluded by its precondition.
