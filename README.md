# USPTO Examination Data: search request, expiration and lazy result set

A Dafny model of the logic in patent_client's client for the USPTO Patent Examination
Data service (`src/patent_client/uspto_exam_data/main.py`). It covers:

- how the manager turns its filter and `order_by` settings into the parameters of a search request;
- how an application computes its expiration: term parent, twenty-year term, extension by the term adjustment, and terminal disclaimer;
- how the derived records are built from an application's data: related applications, term adjustment summary and history, transactions, correspondent and publication number;
- how the bulk-download result set parses records lazily into a positional cache.

Modules, one per concern:

- `Outcomes`: the `Result`/`Option` wrappers and the Python exceptions the code raises.
- `Text`, `Numbers`, `Arithmetic`: `str.strip`, `str.replace`, `in`, `" OR ".join`, ASCII case mapping, and `int()`/`float()` of decimal text.
- `Dates`: `datetime.date` on the proleptic Gregorian calendar. It covers ordinals, `fromordinal`, and dateutil's `date + relativedelta(years=k)` and `date + relativedelta(days=k)`. With days only, the latter adds exactly k days, as `timedelta` does.
- `Fields`: a parsed record. It is a sequence of `(key, value)` entries in dict order, read with `[]`, `.get` and attribute access.
- `Sorting`: Python's stable `sorted(..., key=...)`, proved a sorted, stable permutation.
- `QueryParams`: `USApplicationManager.query_params`, as functions plus the loops as methods.
- `Entities`: `Relationship`, `PtaPteSummary`, `Transaction`, `PtaPteHistory`, `Correspondent` (a class filled by a loop) and `publication`.
- `Expiration`: `USApplication.expiration`.
- `XmlSet`: `USApplicationXmlSet.__getitem__` and `parse_item`, as a class whose methods update the cache, the counter, the open file and the file list.

A few reading choices:

- An attribute of a model object that the constructor does not set reads the record entry of that name. A missing entry raises AttributeError.
- A `Relationship`'s `filing_date`, which is the sort key of the term parents, and its `app_filing_date` are therefore the same entry.
- Python raises TypeError when `sorted` compares dates with values that are not dates. The model raises it whenever two or more keys are compared and one of them is not a date.

## Model

| member | source | states |
|---|---|---|
| QueryParams.BuildQueryParams | src/patent_client/uspto_exam_data/main.py:59-94 | the request built by the two loops and the final dict is the one `QueryParams` describes, and fails where it fails |
| QueryParams.BuildSortQuery | src/patent_client/uspto_exam_data/main.py:60-67 | the `order_by` loop accumulates exactly the terms `RawSort` gives, stopping with IndexError at the first bad entry |
| QueryParams.BuildSearchQuery | src/patent_client/uspto_exam_data/main.py:69-80 | the filter loop accumulates exactly the clauses and `mm_active` flag `RawSearch` gives, stopping with IndexError at an empty name |
| QueryParams.Request | src/patent_client/uspto_exam_data/main.py:82-94 | the dict has the keys qf, fl, searchText, sort and facet, plus mm exactly when `mm_active`; qf/fl/facet are fixed; searchText and sort are the stripped strings; mm is 90% iff the unstripped search names appEarlyPubNumber, else 100% |
| QueryParams.QueryParamsShape | src/patent_client/uspto_exam_data/main.py:59-94 | the request fails (IndexError) iff an `order_by` entry is empty or `-` or a filter name is empty; otherwise it holds the fixed keys, the stripped texts, `mm` iff no truthy value is a list, and 90% iff the stripped search text names appEarlyPubNumber |
| QueryParams.SortTermFails | src/patent_client/uspto_exam_data/main.py:61-67 | one `order_by` entry raises IndexError iff it is empty or a lone `-` |
| QueryParams.RawSortFails | src/patent_client/uspto_exam_data/main.py:60-67 | the sort string fails, with IndexError, iff some entry is empty or `-` |
| QueryParams.RawSortAppend | src/patent_client/uspto_exam_data/main.py:60-67 | the sort string of two lists of keys is the concatenation of their sort strings, the first failure winning |
| QueryParams.AscendingTermsFuse | src/patent_client/uspto_exam_data/main.py:65-67 | ascending terms have no trailing separator, so `["appl_id", "patent_number"]` gives "applId ascpatentNumber asc" |
| QueryParams.RawSearchAppend | src/patent_client/uspto_exam_data/main.py:69-80 | the search text of two filters is the concatenation of their texts in insertion order, and `mm_active` is the conjunction of theirs |
| QueryParams.SearchEntry | src/patent_client/uspto_exam_data/main.py:71-80 | one entry adds `field:(body) ` when its value is truthy and nothing when falsy, and clears `mm_active` iff it is a truthy list |
| QueryParams.RawSearchFails | src/patent_client/uspto_exam_data/main.py:71-72 | the search fails, with IndexError, iff some filter name is empty (the name is camelized before the value is looked at) |
| QueryParams.MmActive | src/patent_client/uspto_exam_data/main.py:70-77 | `mm_active` stays on iff no truthy filter value is a list or tuple |
| QueryParams.Camelize | src/patent_client/uspto_exam_data/main.py:63-72 | lower-camel conversion fails (IndexError) iff the name is empty; otherwise it starts with the lower-cased first character and is no longer than the name |
| QueryParams.CamelizeRoundTrip | src/patent_client/uspto_exam_data/main.py:63-72 | on snake_case names, camelizing has a left inverse (an `_` before each capital, lower-cased), so distinct filter names give distinct service fields |
| QueryParams.CamelizeEarlyPub | src/patent_client/uspto_exam_data/main.py:72-82 | the filter name `app_early_pub_number` becomes the field appEarlyPubNumber that the 90% rule looks for |
| QueryParams.CamelizeApplId | src/patent_client/uspto_exam_data/main.py:63-66 | `appl_id` becomes applId |
| QueryParams.CamelizePatentNumber | src/patent_client/uspto_exam_data/main.py:63-66 | `patent_number` becomes patentNumber |
| QueryParams.CapitalizeParts | src/patent_client/uspto_exam_data/main.py:63-72 | in a snake_case tail each `_x` becomes `X` and the rest is kept |
| Text.StripKeepsWord | src/patent_client/uspto_exam_data/main.py:82-87 | a word without whitespace occurs in the stripped search text iff it occurs in the unstripped one, so looking for it in the raw query is looking for it in the sent text |
| Entities.PublicationChoice | src/patent_client/uspto_exam_data/main.py:267-271 | a non-empty patent number gives "US" followed by it; a falsy one gives the early publication number; a truthy non-text number raises TypeError |
| Expiration.ExpirationOf | src/patent_client/uspto_exam_data/main.py:273-300 | the term parent's number, filing date and relationship (the application's own, with "self" unless its record has a relationship, when no parent counts); twenty years later and then `total_days` later; the disclaimer flag iff the history holds a DIST transaction |
| Expiration.ExpirationSucceeds | src/patent_client/uspto_exam_data/main.py:273-300 | `expiration` succeeds exactly when the term parent can be chosen, the application has its own number and filing date when no parent counts, that filing date is a date at most year 9979, the summary can be built, the adjusted term lies within the representable dates, and the transaction history can be built |
| Expiration.TermParentsMembers | src/patent_client/uspto_exam_data/main.py:276-280 | the term parents are exactly the parents whose relationship is neither a provisional priority claim nor a reissue |
| Expiration.TermParentSelf | src/patent_client/uspto_exam_data/main.py:281-284 | the application is its own term parent iff no parent counts for the term |
| Expiration.TermParentEarliest | src/patent_client/uspto_exam_data/main.py:281-282 | otherwise the term parent is a counting parent with no counting parent filed before it, and every counting parent listed ahead of it is filed later |
| Expiration.EarliestCandidate | src/patent_client/uspto_exam_data/main.py:282 | the head of the sorted candidates is the first of the earliest-filed ones |
| Expiration.OnlyParent | src/patent_client/uspto_exam_data/main.py:276-282 | a lone counting parent is the term parent |
| Expiration.TwentyYears | src/patent_client/uspto_exam_data/main.py:289 | the twenty-year term is in the same month twenty years on, on the same day or, when that month is shorter, on its last day |
| Expiration.ExtensionOrder | src/patent_client/uspto_exam_data/main.py:290-291 | with no adjustment the extended term is the twenty-year term; a positive adjustment makes it later and a negative one earlier |
| Expiration.NoSummaryNoExtension | src/patent_client/uspto_exam_data/main.py:290-291 | without `total_pto_days` the adjustment is 0 and the extended term equals the twenty-year term |
| Expiration.DisclaimerInRecord | src/patent_client/uspto_exam_data/main.py:293-298 | the sorted history holds a DIST transaction iff the record's transactions do |
| Expiration.ContinuationExample | tests/test_uspto_exam_data.py:192-202 | a continuation in part of an application filed 2009-01-29, with no adjustment and a disclaimer, gives the parent's number, relationship and date, and both terms 2029-01-29 |
| Expiration.UnrelatedApplicationExample | tests/test_uspto_exam_data.py:203-212 | an application filed 2015-09-25 with no parents and 752 days gives "self", 2035-09-25 and 2037-10-16, and no disclaimer |
| Dates.TermExample | tests/test_uspto_exam_data.py:203-212 | 2015-09-25 plus twenty years is 2035-09-25, and 752 days later is 2037-10-16 |
| Dates.AddYears | src/patent_client/uspto_exam_data/main.py:289 | `relativedelta(years=k)`: same month, year + k, the day clamped to the month's length; ValueError iff the year leaves 1..9999 |
| Dates.AddDays | src/patent_client/uspto_exam_data/main.py:291 | `relativedelta(days=k)` (which, with days only, adds exactly k days and clamps nothing): the valid date whose ordinal is k more; OverflowError iff that leaves the representable range |
| Dates.LeapDayClamped | src/patent_client/uspto_exam_data/main.py:289 | 29 February moved to a common year becomes 28 February |
| Dates.FromOrdinalInverse | src/patent_client/uspto_exam_data/main.py:291 | the date computed from an ordinal is valid and has that ordinal |
| Dates.FromToOrdinal | src/patent_client/uspto_exam_data/main.py:291 | converting a date to its ordinal and back gives the date |
| Dates.BeforeIsOrdinalLess | src/patent_client/uspto_exam_data/main.py:282 | comparing dates as Python does is comparing their ordinals |
| Dates.AddDaysTwice | src/patent_client/uspto_exam_data/main.py:291 | adding j days, then k days, is adding j + k days |
| Dates.AddDaysLater | src/patent_client/uspto_exam_data/main.py:291 | adding a non-negative number of days never goes back, and a positive number goes forward |
| Entities.TransactionHistoryOrdered | src/patent_client/uspto_exam_data/main.py:303-304 | the history is the record's transactions, each once, sorted by date, same-date transactions keeping their record order |
| Entities.PtaPteHistoryOrdered | src/patent_client/uspto_exam_data/main.py:318-320 | the history is the record's events, each once, in non-decreasing number order, equal numbers keeping their record order |
| Sorting.SortByCorrect | src/patent_client/uspto_exam_data/main.py:282 | `sorted` with a key yields a sorted permutation of its input that keeps the order of elements with equal keys |
| Sorting.SortedHead | src/patent_client/uspto_exam_data/main.py:282 | `sorted(...)[0]` is the first element with the smallest key |
| Entities.MakePtaPteEvent | src/patent_client/uspto_exam_data/main.py:367-375 | an event is built iff every entry it reads is present and `float` accepts the values; each number is `float` of its entry, the day counts `float(v or 0)` so a falsy count is 0, and the date and description are the entries themselves |
| Entities.MakeTransaction | src/patent_client/uspto_exam_data/main.py:407-410 | a transaction is built iff the record date, code and description are present (KeyError otherwise), and holds those three entries |
| Entities.MakeAll | src/patent_client/uspto_exam_data/main.py:303-320 | building a record per row (the parents, the transactions and the term adjustment events) succeeds iff every row builds; then there is one result per row, in order, each built from its row; otherwise the error is that of the first failing row |
| Numbers.ParseShow | src/patent_client/uspto_exam_data/main.py:382-401 | `int` reads back any integer written in decimal, sign included |
| Numbers.ParseDecimalOfInteger | src/patent_client/uspto_exam_data/main.py:370-375 | `float` of a text `int` accepts is that integer |
| Entities.RelationshipFields | src/patent_client/uspto_exam_data/main.py:342-351 | a relationship is built iff the claimed number, filing date and description are present, the description is text and the base application has a number; it holds those entries, the base's number as `related_to_appl_id`, None for a falsy patent number, and the description with the boilerplate removed |
| Entities.RelationshipDropsBoilerplate | src/patent_client/uspto_exam_data/main.py:351 | a description "This application " + rest becomes rest |
| Entities.ReissueDescription | src/patent_client/uspto_exam_data/main.py:351 | "This application is a Reissue of" becomes "is a Reissue of", the wording the term-parent filter excludes |
| Entities.MakePtaPteSummary | src/patent_client/uspto_exam_data/main.py:380-401 | without `total_pto_days` every count is 0 and the type None; otherwise it succeeds iff every count entry converts with `int`, each field is its entry's integer (`appl_delay` giving the applicant delay) and the type is `pta_pte_ind` |
| Entities.Correspondent.constructor | src/patent_client/uspto_exam_data/main.py:418-422 | the loop over the items leaves the attributes the `corr` entries assign, renamed without `corr_addr_` |
| Entities.CorrespondentLastWins | src/patent_client/uspto_exam_data/main.py:418-422 | an attribute is set iff some `corr` entry is renamed to it, and holds the value of the last such entry |
| Entities.LastAssignmentWins | src/patent_client/uspto_exam_data/main.py:419-422 | for any key filter and renaming, successive `setattr` calls leave each name with the value of the last entry assigning it |
| Entities.CorrespondentExample | src/patent_client/uspto_exam_data/main.py:418-422 | `corr_addr_cust_no` is stored as `cust_no`, and a key outside the correspondent's is ignored |
| XmlSet.XmlResultSet.constructor | src/patent_client/uspto_exam_data/main.py:430-437 | a new set has an empty cache, counter 0, and the archive's records as its stream |
| XmlSet.XmlResultSet.CacheNext | src/patent_client/uspto_exam_data/main.py:461-463 | the next record is cached at position `counter`, and the counter goes up by one |
| XmlSet.XmlResultSet.OpenNext | src/patent_client/uspto_exam_data/main.py:464-467 | the first remaining file is popped from the list and becomes the open file; cache, counter and stream are unchanged |
| XmlSet.XmlResultSet.ParseItem | src/patent_client/uspto_exam_data/main.py:458-467 | `parse_item(key)` succeeds iff the archive has a record at `key`; the counter then reaches `key + 1` (or stays, when already past it) and never goes back; earlier cache entries are kept; it fails with IndexError once the files run out |
| XmlSet.XmlResultSet.GetItem | src/patent_client/uspto_exam_data/main.py:450-456 | `self[key]` is the archive's record at the position the key reads, or IndexError when there is none; the counter ends just past that position (or stays, when already past it), and at the end of the archive on IndexError; a cached position changes nothing |
| XmlSet.XmlResultSet.GetSlice | src/patent_client/uspto_exam_data/main.py:447-449 | `self[a:b:c]` is the records at the positions the slice selects from `range(len(self))`; ValueError for a zero step, IndexError when a position is beyond the archive; the counter ends at `Reach` of the positions read, or at the end of the archive on IndexError |
| XmlSet.XmlResultSet.ReadPositions | src/patent_client/uspto_exam_data/main.py:449 | reading non-negative positions one after the other gives the archive's records there, in order, iff every position lies within the archive, else IndexError with the archive read to its end; the counter ends at `Reach` of the positions |
| XmlSet.Index | src/patent_client/uspto_exam_data/main.py:451-452 | a non-negative key is its own position; a negative key is remapped to `len - key`, past the end |
| XmlSet.SliceIndices | src/patent_client/uspto_exam_data/main.py:448 | the positions a slice selects lie within `range(n)` and are one step apart; a zero step raises ValueError |
| XmlSet.SliceMembers | src/patent_client/uspto_exam_data/main.py:448 | with a positive step, a position is selected iff it lies between the clamped bounds, a whole number of steps past the start |
| XmlSet.SliceMembersDownward | src/patent_client/uspto_exam_data/main.py:448 | with a negative step, a position is selected iff it lies from the clamped start down to above the clamped stop, a whole number of steps below the start |
| XmlSet.DownwardMembers | src/patent_client/uspto_exam_data/main.py:448 | counting down from `first` by a negative step while above `last` yields exactly the positions in that range a whole number of steps below `first` |
| XmlSet.ReachIsMaximum | src/patent_client/uspto_exam_data/main.py:454-463 | reading positions in order leaves the counter at the larger of where it started and one past the largest position read |
| XmlSet.WholeSlice | src/patent_client/uspto_exam_data/main.py:448 | `self[:]` reads every position in order |
| XmlSet.CachedUpTo | src/patent_client/uspto_exam_data/main.py:458-463 | once position k is parsed, every position up to k is cached and holds the archive's record there |

## Left out

- Network I/O: the HTTP requests, polling, the wall-clock timeout, the zip download, the JSON and zip cache files, and the remote search-field list (main.py:96-186).
- `hash_dict`, the `Manager` and `Model` base classes, and `one_to_many`/`one_to_one`. They belong to `patent_client.util`, which is not part of this model.
- The XML and JSON parsers, and dateutil's date parsing. A parsed application is given as a record, and each file of the archive as the records it parses to.
- The zip archive is abstracted the same way.
- `USApplicationXmlSet.__iter__`, `USApplicationJsonSet`, `DateEncoder`, and `src/patent_client/__init__.py`: iteration, JSON plumbing and cache sweeping.
- Entities.MakePtaPteEvent: `float` is modelled as exact decimal reals, with no exponent, `inf` or `nan` forms and no rounding.
- Numbers.ParseInt: reads only ASCII digits after an optional sign. Python's `int` also accepts underscores between digits and non-ASCII digits; such text is rejected here.
- Numbers.ParseDecimal: reads only ASCII digits with at most one decimal point. Python's `float` also accepts underscores, non-ASCII digits, exponents, `inf` and `nan`; such text is rejected here.
- QueryParams.Camelize: case mapping covers ASCII letters only. The camelize library is read as its documented behaviour, not as code.
- QueryParams.QueryParams: the request is a map, so the dict's key order is not modelled.
- Entities.TransactionHistory: Python can also sort a list made only of strings or only of numbers. The model raises TypeError whenever two or more keys are compared and one of them is not a date.
- Expiration.TermParent: filing dates are treated the same way.
- Entities.MakePtaPteSummary: `total_days` is not checked against the other counts, just as the code does not check it.
- QueryParams.Body: a filter value is a string, an integer (formatted as decimal), `None`, or a list of strings. Other Python objects are not modelled.
- XmlSet.XmlResultSet.GetItem: a negative key is remapped to `len - key` exactly as written, which always lies past the end. The usual `len + key` is not modelled.
- Entities.Correspondent.constructor: the attributes are kept in a map. The attributes the `Model` base class adds are not modelled.
