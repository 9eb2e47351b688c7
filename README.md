# Revision scheduler engine

This project models the spaced-repetition engine of the revision schedule
manager. The engine keeps an ordered list of topics. Each topic has a name,
a learned date, a revision count, a last-revised date and a next-revision
date. The engine schedules revisions by the interval table
`[1, 7, 15, 30, 90, 180]` days:

- adding a topic schedules it one day after it was learned;
- each revision schedules the next one `table[count]` days later, or 180
  days later once the count reaches six;
- the queries list the due topics, the revisions in a window of days, and
  the statistics;
- each successful change rewrites the data file.

The same engine class appears four times in the repository:

- `RevisionScheduler` in `revision_scheduler.py`;
- `SimpleRevisionScheduler` in `simple_revision_scheduler.py`;
- the embedded `RevisionScheduler` in `streamlit_app.py`;
- the stripped copy in `test_scheduler.py`, which has no schedule query and
  no delete.

Once `print` calls and docstrings are set aside, their method bodies are
the same statement for statement (the copies in `streamlit_app.py` and
`test_scheduler.py` print nothing). They are modelled once, as the class
`Scheduler.RevisionScheduler`.

Modules:

- `Calendar`: the proleptic Gregorian calendar and day numbers (Python's
  `date.toordinal()`). Adding `timedelta(days=k)` to a date adds `k` to its
  day number.
- `DateText`: the `YYYY-MM-DD` text the engine stores. This is the
  `full-date` form of section 5.6 of RFC 3339, with the day-of-month limits
  of section 5.7. The module has the text's round trips and its string
  order.
- `CaseFold`: `str.lower()` as an ASCII fold, and the name test
  `a.lower() == b.lower()`.
- `Sorting`: Python's stable `list.sort(key=...)`, proved sorted, a
  permutation and stable.
- `Topics`: the rules on values: records, the interval table, what each
  operation does to the list, the query results and the statistics, with
  their invariants.
- `Scheduler`: the class. Its fields are the topic list and the data file,
  and its methods are loops proved against the `Topics` functions.
- `SchedulerTest`: the scenario of `test_revision_scheduler` and its
  expected date vectors.

Today's date is a parameter wherever the source reads the clock. Dates are
held as day numbers. The lemmas in `DateText` and `Calendar` connect day
numbers to the stored text: the text reads back to the same date, and
string order on the text is chronological order.

The other copies' lines map to the same members:

| operation | simple_revision_scheduler.py | streamlit_app.py | test_scheduler.py |
|---|---|---|---|
| add_topic | 21-49 | 23-49 | 24-49 |
| mark_revised | 51-78 | 51-76 | 51-73 |
| get_due_topics | 80-96 | 78-94 | 75-89 |
| get_revision_schedule | 98-117 | 96-115 | — |
| get_all_topics | 119-121 | 117-119 | — |
| delete_topic | 123-133 | 121-129 | — |
| save_data / load_data | 135-149 | 131-145 | 91-103 |
| statistics | 213-227 (printed) | 147-161 (returned) | — |

## Model

| member | source | states |
|---|---|---|
| Calendar.OrdinalOrder | revision_scheduler.py:120-121 | Comparing day numbers is comparing the civil dates chronologically, in both directions. Equal day numbers mean the same date. |
| Calendar.OrdinalSuccessor | revision_scheduler.py:53-55 | Adding one day to a day number gives the day number of the next civil date, across month and year ends and leap days. |
| DateText.Format | revision_scheduler.py:56 | The written text is always ten characters of the `DDDD-DD-DD` shape (four digits, hyphen, two digits, hyphen, two digits). |
| DateText.Parse | revision_scheduler.py:120 | Text reads as a date only when it has the `DDDD-DD-DD` shape and names a valid date, whose year, month and day are the decimal values of its digit fields. |
| DateText.ParseFormat | revision_scheduler.py:54-56 | Writing a valid date as `YYYY-MM-DD` and reading it back gives the same date. |
| DateText.FormatParse | revision_scheduler.py:115 | Any text that reads as a date is exactly the canonical text of that date. |
| DateText.FormatInjective | revision_scheduler.py:56 | Two valid dates have the same text exactly when they are the same date. |
| DateText.TextOrderIsDayOrder | revision_scheduler.py:124-125 | Sorting by the `next_revision` text orders topics by day number: string `<` on the texts holds iff the day numbers are smaller, and text equality is day equality. |
| DateText.ParseDayFormat | revision_scheduler.py:120 | The `next_revision` text written for a valid date reads back to that date's day number. |
| DateText.ParseDayCanonical | revision_scheduler.py:115 | Any text that reads as a day number is the canonical text of the date with that number. |
| DateText.ParseDayInjective | revision_scheduler.py:120 | Two texts that both read as dates give the same day number exactly when they are the same text. |
| DateText.LexLess | revision_scheduler.py:125 | String `<` on the sort keys never holds between equal strings. |
| DateText.LexStrictOrder | revision_scheduler.py:125 | String `<` is a strict total order: asymmetric, transitive, and any two distinct strings compare one way or the other. |
| CaseFold.LowerChar | revision_scheduler.py:40 | A folded character is never a capital; it differs from the input exactly when the input is a capital A-Z, and then it is the matching small letter. |
| CaseFold.Lower | revision_scheduler.py:40 | Lower-casing keeps the length and folds each character on its own. |
| CaseFold.FoldedNameClashes | revision_scheduler.py:39-42 | A name clashes with its own lower-cased spelling, so a name differing only in case is refused. |
| Sorting.SortByKey | revision_scheduler.py:125 | The sorted list is a permutation (same multiset) of its input. |
| Sorting.SortSorted | revision_scheduler.py:125 | The sorted list is ascending by key. |
| Sorting.SortStable | revision_scheduler.py:154 | Elements with equal keys keep their relative order, as Python's sort does. |
| Topics.NextInterval | revision_scheduler.py:84-93 | The gap scheduled after a revision is one of 1, 7, 15, 30, 90, 180 days; at least 7 for any real revision (count at least 1); 180 once the count reaches 5. |
| Topics.NextIntervalMonotone | revision_scheduler.py:20 | The gaps never shrink as the revision count grows. |
| Topics.NewTopic | revision_scheduler.py:45-56 | A new record keeps the name and learned day, has count 0 and no last revision, and is due on exactly the days after the learned day. |
| Topics.Revised | revision_scheduler.py:80-93 | A revised record keeps its name and learned day, has one more revision and the revision day as last revised, is not due on the revision day, and is due from the revision day plus the interval of the new count onwards. |
| Topics.FirstMatch | revision_scheduler.py:78-79 | The index found is the first whose name matches after lower-casing. None means no name matches. |
| Topics.RevisionGap | simple_revision_scheduler.py:58-71 | A revision adds one to the count, records the date and keeps the name. The next revision is strictly later, by 7, 15, 30, 90 or 180 days, and by 180 once the count was five or more. |
| Topics.Progression | revision_scheduler.py:80-93 | From a new topic, after n revisions the count is n and the last gap is 7, 15, 30, 90, 180 for n = 1..5 and 180 from then on. The 1-day entry is never used by a revision. |
| Topics.AddKeepsWellFormed | simple_revision_scheduler.py:27-46 | Adding keeps names pairwise distinct under lower-casing and every topic scheduled. |
| Topics.ReviseKeepsWellFormed | simple_revision_scheduler.py:56-71 | Revising keeps names distinct, and the revised topic still has a next revision. |
| Topics.DeleteKeepsWellFormed | simple_revision_scheduler.py:125-128 | Deleting keeps names distinct and every remaining topic scheduled. |
| Topics.ApplyKeepsDerived | revision_scheduler.py:45-93 | Every operation keeps each topic's next revision derived from its count and anchor date: learned day + 1 while the count is 0, otherwise last revision + the table gap of the count. The next revision is never set on its own. |
| Topics.ApplyKeepsWellFormed | simple_revision_scheduler.py:21-133 | Every operation keeps the list well formed: names unique under lower-casing, every `next_revision` present (so the export's "Completed" fallback never arises), and every `next_revision` derived from its count and anchor date. |
| Topics.RunKeepsWellFormed | simple_revision_scheduler.py:21-133 | Every series of operations from a well-formed list keeps it well formed. |
| Topics.CountsOnlyGrow | simple_revision_scheduler.py:33-58 | For a topic kept across an operation, its revision count changes only under a revision of that name, and then by exactly +1. It never decreases. |
| Topics.ReviseTouchesFirstMatch | revision_scheduler.py:78-100 | A revision changes only the first matching record, into its revised form. With no match the list is unchanged. |
| Topics.DeleteRemovesFirstMatch | revision_scheduler.py:168-179 | Deleting removes exactly the first match and keeps the rest in order. With unique names no topic of that name is left. With no match nothing changes. |
| Topics.AddAppendsNew | revision_scheduler.py:39-59 | Adding succeeds iff no name matches. On success it appends one record (count 0, never revised, due learned + 1) after the unchanged earlier records. On failure the list is unchanged. |
| Topics.DueFilterMembers | revision_scheduler.py:117-122 | The loop keeps exactly the topics whose next revision is on or before the date (inclusive). |
| Topics.Due | revision_scheduler.py:117-126 | The due list is no longer than the topic list and holds only topics of the list that are due on or before the date. |
| Topics.DueExactly | revision_scheduler.py:102-126 | The due list holds exactly the due topics, as a permutation of the filtered list. It is ascending by date, and topics due on the same day stay in list order. |
| Topics.WindowFilterMembers | revision_scheduler.py:141-151 | The loop yields one entry per topic with today <= next revision <= today + days_ahead. |
| Topics.Schedule | revision_scheduler.py:141-155 | Every schedule entry is the entry of some topic of the list in the window. |
| Topics.ScheduleExactly | revision_scheduler.py:128-155 | The schedule holds exactly the window's entries, as a permutation, ascending by date. Overdue topics are excluded. |
| Topics.ScheduleEntries | revision_scheduler.py:138-154 | Each topic in the window has an entry with its date, its name, revision number = count + 1 and days from now = date - today. Every entry lies in the window, with 0 <= days from now <= days_ahead. |
| Topics.CountCompleted | revision_scheduler.py:259 | The number of completed topics is at most the number of topics. |
| Topics.SumRevisions | revision_scheduler.py:268 | The total revision count is at least each topic's count, and is zero exactly when no topic has been revised. |
| Topics.AverageRevisions | streamlit_app.py:158 | The average is 0 for an empty list. Otherwise, times the number of topics, it is the total revision count. |
| Topics.CompletedCount | simple_revision_scheduler.py:215-227 | "Completed" equals the total iff every topic has six or more revisions, and is zero iff none has. The total revision count is at least six per completed topic. |
| Scheduler.LoadSaved | revision_scheduler.py:181-195 | Loading the file that `save_data` wrote gives back exactly the saved list. |
| Scheduler.Reopen | test_scheduler.py:173-177 | A second engine opened on the data file of an engine in step with its file holds the same topics, in the same order and with the same fields, and is in step with the file. |
| Scheduler.RevisionScheduler.constructor | revision_scheduler.py:16-21 | A new engine holds the loaded list and the file as it found them. The file is in step whenever it held records. |
| Scheduler.RevisionScheduler.AddTopic | revision_scheduler.py:23-61 | Returns true iff no existing name matches under lower-casing. The new list is `Apply(old, Add)`. The file is rewritten only on success. Being in step with the file and well-formedness are preserved. |
| Scheduler.RevisionScheduler.MarkRevised | revision_scheduler.py:63-100 | Returns true iff some name matches. The new list is `Apply(old, Revise)`. The file is rewritten only on success. Well-formedness is preserved. |
| Scheduler.RevisionScheduler.GetDueTopics | revision_scheduler.py:102-126 | Returns `Due(topics, date)`: exactly the due topics, ascending by date, no more of them than there are topics. The state is not modified. |
| Scheduler.RevisionScheduler.GetRevisionSchedule | revision_scheduler.py:128-155 | Returns `Schedule(topics, today, days_ahead)`. Every entry lies in the window with consistent days-from-now, ascending by date. The state is not modified. |
| Scheduler.RevisionScheduler.GetAllTopics | revision_scheduler.py:157-159 | Returns a list equal to the topic list. |
| Scheduler.RevisionScheduler.DeleteTopic | revision_scheduler.py:161-179 | Returns true iff some name matches. The new list is `Apply(old, Delete)` and is one shorter exactly on success. The file is rewritten only on success. Well-formedness is preserved. |
| Scheduler.RevisionScheduler.GetStatistics | streamlit_app.py:147-161 | total = number of topics; due_today = the due list's length (at most total); completed = count with six or more revisions; completed + in_progress = total; the average is 0 for no topics and sum / total otherwise. |
| Scheduler.RevisionScheduler.DisplayStatistics | revision_scheduler.py:255-269 | The same counts. An average is reported exactly when the list is non-empty, and it is sum / total. |
| SchedulerTest.FindNamed | test_scheduler.py:124 | The topic found has exactly that name and is the first topic of the list with that name. None means no topic has it. |
| SchedulerTest.TestDayTexts | test_scheduler.py:157 | The civil dates are valid, and their texts are `test_dates`. |
| SchedulerTest.ExpectedDayTexts | test_scheduler.py:158 | The civil dates are valid, and their texts are `expected_next_dates`. |
| SchedulerTest.TestDayNumbersAgree | test_scheduler.py:157 | The day numbers used for `test_dates` are those dates' day numbers. |
| SchedulerTest.ExpectedDayNumbersAgree | test_scheduler.py:158 | The day numbers used for `expected_next_dates` are those dates' day numbers. |
| SchedulerTest.CycleVectors | test_scheduler.py:157-169 | Each expected next date is the i-th test date plus the interval of revision i + 1: 7, 15, 30, 90, 180, 180 days. |
| SchedulerTest.CycleMatchesExpected | test_scheduler.py:160-169 | Next dates computed by the interval rule from `test_dates` are `expected_next_dates`. |
| SchedulerTest.FirstDueVectors | test_scheduler.py:124-146 | The dates of the first two checks: 2025-10-01 + 1 = 2025-10-02 and 2025-10-02 + 7 = 2025-10-09, with their texts. |
| SchedulerTest.AddTopics | test_scheduler.py:112-131 | Two distinct names are added, the duplicate is refused, and the first topic is due the day after it was learned. |
| SchedulerTest.ReviseFirst | test_scheduler.py:133-146 | The revision of the first topic succeeds, and afterwards that topic is due 7 days after the revision date. |
| SchedulerTest.RevisionCycle | test_scheduler.py:155-169 | Revising the second topic on each date in turn reads back date + interval of that revision. |
| SchedulerTest.Scenario | test_scheduler.py:105-181 | For any two names distinct under lower-casing, and any learned and revision days, the test's checks hold: the two adds succeed and the duplicate is refused, the first due date is learned + 1, the revision succeeds and the next due date is revision + 7, nothing is due, the cycle reads back date + interval, and the reloaded engine holds exactly the saved topics. |
| SchedulerTest.TestRevisionScheduler | test_scheduler.py:105-181 | On the test's own dates, every check of the test holds: true, true, false; 2025-10-02; the revision succeeds; 2025-10-09; no topic due; the six expected next dates; 2 topics before and after reload. |

## Left out

- The Streamlit page, its layout, charts, CSS and session state are not modelled. They are UI and foreign plotting and table calls.
- The interactive `main()` menus are not modelled. They are console I/O.
- `export_to_csv` and `export_to_excel` are not modelled. They are file I/O through pandas and openpyxl; their "days overdue" column is only today minus the next revision.
- JSON mechanics are left out. `save_data` is modelled as the `stored` field taking the whole list. `load_data` is modelled as `Loaded`: a missing file or malformed JSON (the `JSONDecodeError` and `FileNotFoundError` it catches) gives no topics.
- Read errors `load_data` does not catch are not modelled: a data file that exists but cannot be opened or decoded (`PermissionError`, `IsADirectoryError`, `UnicodeDecodeError`) raises out of the constructor.
- JSON that is valid but not a list of topic records (for example `{}`) is loaded as it is by the source; the model's data file holds either malformed JSON or a list of records, so that case is not modelled.
- `datetime.date.today()` is a parameter (`today`, `checkDate`) instead of the clock.
- Dates are modelled as valid `YYYY-MM-DD` text, read into day numbers. `strptime` also accepts unpadded fields (such as `2025-1-5`); that leniency, and text that fails to parse (a `ValueError` in the source), are not modelled. Operations take day numbers.
- A consequence of that `ValueError` is not modelled either (an observation from reading the source, not executed): `mark_revised` raises the count and records `last_revised` (revision_scheduler.py:80-81) before `strptime` can fail on a malformed date (lines 86 and 91). The in-memory topic is then left half updated, and the next successful save writes it to the file. The model's `MarkRevised` takes a day number, so it always completes the update.
- The model has no conversion from day numbers back to civil dates. Stored dates are compared through `DateText.TextOrderIsDayOrder` and `DateText.ParseFormat`.
- Dates past 9999-12-31 are not modelled (Python raises `OverflowError`). Years below 1000, which the platform's `%Y` may write unpadded, are not modelled either.
- Topics.AverageRevisions: the average is an exact real. Python's float division and the `:.1f` formatting are not modelled.
- CaseFold.Lower: `str.lower()` folds only ASCII A-Z here; Unicode case mapping is not modelled.
- `print` output is not modelled, including the test's report and its "interval name" labels.
- The test deletes `test_data.json` at the end; that cleanup is not modelled. The scenario starts from a missing data file, as a first run does.
- The engine does not check a loaded file: a hand-edited list need not be well formed (unique names, derived next revisions). The class methods keep `WellFormed` only for a list that already has it.
- `revision_count` is a natural number. A hand-edited negative count in the file would index the table from the end in Python; that is not modelled.
- Returned lists are values. The source returns the same dict objects it holds, so a caller could change a topic through a returned entry; that aliasing is not modelled.
- SchedulerTest.TestRevisionScheduler: states its date checks on day numbers. The texts of those days are fixed by SchedulerTest.ExpectedDayTexts, SchedulerTest.ExpectedDayNumbersAgree and SchedulerTest.FirstDueVectors.
