# Record validator and sorter — a Dafny model

The script in `main.py` reads a list of person records, each with nine
fields (telephone, weight, inn, passport series, university, age, political
views, worldview, address). `Validator.type_error` runs nine field checks in
a fixed order and names the first one that fails, or returns `"no_errors"`.
One loop over the records counts each outcome and keeps the valid records in
input order. Depending on a menu answer, the valid records are then bucket
sorted by weight or by age; each bucket is put in order by an in-place
insertion sort. Finally every kept record is written out as a block of
` name: value` lines between braces.

The model has one module per part of the script:

- `Records` (records.dfy) holds the record entity. `weight` and `age` are
  what Python's `int()` makes of the raw value. `None` stands for a value
  that `int()` rejects.
- `FieldRules` (field_rules.dfy) holds the nine `check_*` predicates.
  - `re.match` matches a prefix, so a pattern without `$` accepts any tail
    after the matched part.
  - `$` also accepts a single line break at the very end.
  - `А-я` is the character range U+0410..U+044F.
  - `not s.find(w)` holds exactly when `s` starts with `w`. So the university
    rule rejects a name that *starts* with "университет" and accepts a name
    without the word, such as "МГУ". The model keeps this behaviour of the
    code.
- `Validator` (validator.dfy) holds `type_error`: the first failing check in
  the order telephone, weight, inn, passport series, university, age,
  political views, worldview, address.
- `Sorting` (sorting.dfy) holds `insertion_sort`, an in-place method on an
  array. It is proved equal to a functional insertion sort, `Sort`. `Sort`
  is in turn proved sorted, stable (equal keys keep their input order) and
  a permutation. It is also shown to be the only sequence that is sorted
  and stable.
- `Buckets` (buckets.dfy) holds `max_value_in_data` and `bucket_sort`.
  - Bucket `j` receives the records whose index `int(v / (max / n))` is `j`.
    The index `n` is redirected to bucket `n - 1`.
  - The result is proved to be exactly `Sort` of the input: sorted, stable
    and a permutation.
- `Batch` (batch.dfy) holds the counting loop, the classification loop with
  its ten counters and its list of valid records, and the sort dispatch on
  `menu`.
- `Output` (output.dfy) holds the text written for each record, `str()` of
  an integer, and the writing loop. A record's text reads back as the same
  record whenever no field holds a line break.
- `Report` (report.dfy) holds the script from classification to the written
  text.

## Model

| member | source | states |
|---|---|---|
| FieldRules.MatchPrefix | main.py:117-118 | a fixed-width pattern matches at the start of s iff s is at least as long as the pattern and every pattern position accepts the character there |
| FieldRules.MatchPrefixIgnoresTail | main.py:117-118 | re.match looks only at a prefix: extending s past the pattern's width never changes the verdict |
| FieldRules.RunTail | main.py:170 | `[class]*$` matches iff every character is in the class, or every character but a final line break is |
| FieldRules.MatchRunToEnd | main.py:170 | `[class]+$` matches iff s is a non-empty run of class characters, optionally followed by one final line break |
| FieldRules.RunToEndFinalNewline | main.py:198 | one trailing line break after a valid run is accepted; two are rejected |
| FieldRules.FindFrom | main.py:170 | the result is -1 or an occurrence of sub at or after i, and no occurrence lies between i and the result |
| FieldRules.FindIsZeroIffStartsWith | main.py:170 | str.find returns 0 exactly when the string starts with the word, so `not find(...)` is a starts-with test |
| FieldRules.CheckTelephoneNumber | main.py:117-120 | true iff the first 18 characters are `+d-(ddd)-ddd-dd-dd` with d a decimal digit |
| FieldRules.CheckWeight | main.py:130-136 | true iff int() succeeds and the value lies in 1..150 |
| FieldRules.CheckInn | main.py:146-148 | true iff the first 12 characters are digits |
| FieldRules.CheckPassportSeries | main.py:158-160 | true iff the first five characters are two digits, a space, two digits |
| FieldRules.CheckUniversity | main.py:170-172 | true iff the whole name is Cyrillic, space, dot or hyphen (one final line break allowed) and it does not start with "университет" |
| FieldRules.CheckAge | main.py:182-188 | true iff int() succeeds and the value lies in 1..150 |
| FieldRules.CheckPoliticalViews | main.py:198-200 | true iff the whole text is Cyrillic, space or dot (one final line break allowed) |
| FieldRules.CheckWorldview | main.py:210-212 | true iff the whole text is Cyrillic, space or dot (one final line break allowed) |
| FieldRules.CheckAddress | main.py:222-225 | true iff the whole text is Cyrillic, digit, space or dot (one final line break allowed) and starts with "ул. " |
| FieldRules.PrefixChecksIgnoreTail | main.py:117-160 | the telephone, inn and passport checks ignore everything after their fixed width |
| FieldRules.UniversityWordNotRequired | main.py:170 | a university name without "университет" ("МГУ") passes |
| FieldRules.UniversityWordFirstRejected | main.py:170 | a name that starts with "университет" fails |
| Validator.Checks | main.py:228-245 | the nine verdicts, one per entry of the fixed check order |
| Validator.FirstFailure | main.py:228-246 | defined as the category of the earliest false entry of the nine verdicts, or "no_errors"; its meaning, both directions, is stated by `Validator.FirstFailureIsEarliest` |
| Validator.FirstFailureIsEarliest | main.py:227-246 | the outcome is "no_errors" iff all nine checks pass, and it is category i iff check i fails and every earlier check passes |
| Validator.TypeError | main.py:227-246 | type_error's answer is the first failure of the nine verdicts in check order |
| Validator.ValidKeys | main.py:130-136 | a valid record has a weight and an age, both in 1..150 (lines 182-188 for age) |
| Validator.NamesDistinct | main.py:229-246 | the ten result strings are pairwise distinct, so the batch loop's string tests tell them apart |
| Validator.SampleTelephonePasses | main.py:117-120 | the telephone "+7-(123)-456-78-90" passes |
| Validator.SampleInnPasses | main.py:146-148 | the inn "123456789012" passes |
| Validator.SamplePassportPasses | main.py:158-160 | the passport series "12 34" passes |
| Validator.SampleTextFieldsPass | main.py:117-160 | the sample's telephone, inn and passport series pass |
| Validator.SampleUniversityPasses | main.py:170-172 | "Московский университет" passes |
| Validator.SampleViewsPass | main.py:198-212 | "Демократия" and "Рационализм" pass |
| Validator.SampleAddressPasses | main.py:222-225 | "ул. Ленина 5" passes |
| Validator.SampleIsValid | main.py:227-246 | the sample record `Validator.Sample` gets "no_errors" |
| Validator.HeavySampleIsWeightError | main.py:230-231 | the same record with weight 200 gets "error_weight" |
| Validator.TelephoneReportedFirst | main.py:228-231 | with a bad telephone and a bad weight, the telephone error is the one reported |
| Sorting.Insert | main.py:256-260 | defined as one inner-loop pass on values: x goes after every element whose key is not above its own; `Sorting.InsertElements`, `Sorting.InsertTies`, `Sorting.InsertSorted` and `Sorting.InsertAt` state what it does |
| Sorting.Sort | main.py:254-260 | defined as inserting the items one by one in input order; `Sorting.SortCharacterization` shows it is the one sorted, stable arrangement of its input |
| Sorting.TiesAppend | main.py:254-260 | the records of one key in a concatenation are those of each part, in order |
| Sorting.TiesMembers | main.py:254-260 | the records of key k are exactly the members whose key is k |
| Sorting.TiesMultiplicity | main.py:254-260 | every element occurs in its own key's records as often as in the whole list |
| Sorting.SameTiesPermutation | main.py:254-260 | two lists that agree on the records of every key are permutations of each other |
| Sorting.InsertElements | main.py:256-260 | inserting x adds exactly x to the multiset of elements |
| Sorting.InsertTies | main.py:257 | x goes after every element with an equal key, because the shift stops at `<` |
| Sorting.InsertSorted | main.py:256-260 | inserting into a sorted prefix keeps it sorted |
| Sorting.InsertAt | main.py:257-260 | when the keys before position j are at most x's key and those from j on are larger, the insertion puts x at j |
| Sorting.SortSorted | main.py:254-260 | the functional insertion sort yields a sorted list |
| Sorting.SortTies | main.py:254-260 | the sort is stable: every key's records keep their input order |
| Sorting.SortPermutes | main.py:254-260 | the sort is a permutation of its input and keeps its length |
| Sorting.SortedUnique | main.py:254-260 | two sorted lists that agree on every key's records are equal |
| Sorting.SortCharacterization | main.py:254-260 | r is the sort of s iff r is sorted and stable with respect to s |
| Sorting.SortFacts | main.py:254-260 | the sort is sorted, stable and a permutation |
| Sorting.SortOfSorted | main.py:254-260 | sorting a sorted list changes nothing |
| Sorting.SortPrefixStep | main.py:255-260 | sorting the first i+1 items inserts item i into the sorted first i items |
| Sorting.ShiftIntoPlace | main.py:256-260 | one pass of the inner loop turns `a[..i+1]` into item i inserted into the already sorted `a[..i]`, leaving the rest of the array untouched |
| Sorting.InsertionSort | main.py:254-260 | the array ends up equal to the functional sort of its old contents: sorted, stable and a permutation |
| Buckets.MaxKey | main.py:268-272 | the maximum key is the key of some record and no record's key exceeds it |
| Buckets.MaxValueInData | main.py:268-272 | the loop and max() compute the maximum key of a non-empty list |
| Buckets.RawIndex | main.py:286 | defined as the exact index `(v * n) / max` of the bucket width `max / n`; `Buckets.RawIndexRange` states its range |
| Buckets.BucketIndex | main.py:286-287 | defined as the raw index with `n` redirected to `n - 1`; `Buckets.BucketIndexRange` and `Buckets.BucketIndexMonotone` state its range and order |
| Buckets.RawIndexRange | main.py:286 | for keys in 0..max, the index lies in 0..n, and it equals n exactly for the maximum key |
| Buckets.BucketIndexRange | main.py:286-287 | after the redirect of index n, every record lands in one of the n buckets, and the maximum goes to the last |
| Buckets.BucketIndexMonotone | main.py:286-287 | a larger key never goes to an earlier bucket |
| Buckets.Bucket | main.py:283-287 | defined as the records whose index is j, in input order; `Buckets.BucketMembers` and `Buckets.BucketTies` state which records it holds |
| Buckets.SortedBuckets | main.py:283-289 | there are exactly n buckets |
| Buckets.BucketMembers | main.py:285-287 | every record in bucket j has a key in 0..max whose bucket index is j |
| Buckets.BucketTies | main.py:285-287 | bucket j holds all records of key k, in input order, when k's index is j, and none otherwise |
| Buckets.TiesOutOfRange | main.py:285-287 | no record has a key outside 0..max |
| Buckets.ConcatPrefixTies | main.py:290-292 | the first c sorted buckets joined hold all records of every key whose index is below c, in input order |
| Buckets.SortedBucketMembers | main.py:285-289 | after its insertion sort, every record of bucket j still has a key in 0..max whose index is j |
| Buckets.EarlierBucketsBelow | main.py:286-292 | records of earlier buckets have keys no larger than those of a later bucket, because the index grows with the key |
| Buckets.ConcatPrefixMembers | main.py:290-292 | every record in the first c buckets has an index below c |
| Buckets.ConcatPrefixSorted | main.py:290-292 | the first c sorted buckets joined are sorted |
| Buckets.BucketSorted | main.py:280-293 | defined as the sorted buckets joined in index order; `Buckets.BucketSortedFacts` shows it is `Sort` of its input |
| Buckets.BucketSortedIsSorted | main.py:280-293 | bucket sort's result is sorted |
| Buckets.BucketSortedTies | main.py:280-293 | bucket sort is stable |
| Buckets.BucketSortedIsSort | main.py:280-293 | bucket sort equals the insertion sort of the whole list, so it is also a permutation |
| Buckets.BucketSortedFacts | main.py:280-293 | bucket sort's result is sorted, stable, a permutation, and equal to the insertion sort |
| Buckets.Distribute | main.py:283-287 | the distribution loop builds n lists; list j is bucket j, which holds the records of index j in input order |
| Buckets.SortEachBucket | main.py:288-289 | each bucket is replaced by its insertion sort |
| Buckets.DistributedBuckets | main.py:283-289 | the distributed and insertion-sorted lists are exactly the n sorted buckets |
| Buckets.JoinBuckets | main.py:290-292 | the joining loop returns the buckets concatenated in index order |
| Buckets.BucketSort | main.py:280-293 | the result is the sorted, stable permutation of the input, equal to its insertion sort |
| Batch.Tally.Add | main.py:346-367 | defined as the increment of the one counter that the outcome names; `Batch.AddCount` and `Batch.AddClassified` state its effect |
| Batch.AddCount | main.py:346-367 | classifying one more record raises exactly the counter of its outcome by one and leaves the record counter alone |
| Batch.AddClassified | main.py:346-367 | the ten outcome counters together grow by exactly one per record |
| Batch.Outcomes | main.py:334-345 | one outcome per record |
| Batch.ValidOf | main.py:346-348 | defined as the valid records of the input in input order; `Batch.AppendOne` and `Batch.ValidOfFacts` state its contents and length |
| Batch.OccurrencesAppend | main.py:345-367 | one more record adds one to the count of its own outcome only |
| Batch.AppendOne | main.py:346-348 | a valid record is appended to the kept list; an invalid one is not |
| Batch.CountOfSum | main.py:346-367 | every outcome is one of the ten categories, so the ten counts add up to the number of outcomes |
| Batch.OccurrencesSum | main.py:346-367 | the "no_errors" count plus the nine error counts equals the number of records |
| Batch.ValidOfFacts | main.py:346-348 | the kept list holds only valid input records, and its length is the "no_errors" count |
| Batch.ValidOfSubset | main.py:346-348 | the kept list holds only valid records taken from the input |
| Batch.ValidOfAllValid | main.py:346-348 | every kept record is valid |
| Batch.ValidOfMembers | main.py:346-348 | every kept record comes from the input |
| Batch.ValidOfCount | main.py:346-348 | the kept list is as long as the number of valid records |
| Batch.ValidRecordsSortable | main.py:388-389 | a non-empty list of valid records satisfies bucket sort's demands for either key |
| Batch.SortStepAsWritten | main.py:388-389 | the sort dispatch as written fails exactly when a sort is asked for and no record is valid |
| Batch.EmptyBatchSortFails | main.py:388-389 | with no valid record, the kept list is empty and menu 1 or 2 makes the dispatch fail (max of an empty list, line 272) |
| Batch.NoValidRecords | main.py:346-348 | with no valid record, nothing is kept |
| Batch.SortStep | main.py:388-389 | menu 0 keeps the list; menu 1 or 2 gives its weight or age sort, sorted, stable and a permutation; it agrees with the code wherever the code does not fail |
| Batch.CountOutcome | main.py:349-367 | the if/elif chain on the result string raises the counter of that outcome |
| Batch.ClassifyOne | main.py:334-367 | one loop step raises the record's outcome counter and appends the record iff it is valid |
| Batch.ClassifyStep | main.py:334-367 | the loop invariant: after i records, each counter is the number of those records with its outcome |
| Batch.KeepStep | main.py:346-348 | after i+1 records the kept list is the valid records among them |
| Batch.TallyStep | main.py:334-367 | counters that match the first records still match after one more step |
| Batch.ClassifyAll | main.py:331-368 | after the loop, each counter is the number of records with its outcome, the counters add up to the number of records, and the kept list is the valid records in input order |
| Batch.Process | main.py:320-389 | counter is the number of records; each category counter is the number of records with that outcome; the valid records are kept and sorted as the menu says; wherever line 389 as written does not fail, the list is exactly what it returns |
| Batch.SortedKeepsValid | main.py:388-389 | a permutation of valid records holds only valid records |
| Output.NatToStringDigits | main.py:410 | str() of a natural number is a non-empty digit string whose value is the number |
| Output.ParseDigits | main.py:410 | the reader of what str() writes gives a digit string its value |
| Output.ParseNegative | main.py:410 | the same reader gives a minus sign and digits the negated value |
| Output.IntRoundTrip | main.py:410 | reading back str() of any integer gives that integer |
| Output.IntNoBreak | main.py:410 | str() of an integer holds no line break |
| Output.SplitLines | main.py:410 | splitting at line breaks gives at least one line |
| Output.SplitNoBreak | main.py:410 | a text without a line break is one line |
| Output.SplitAtLastBreak | main.py:410 | a final line break and a last line add that line |
| Output.SplitJoin | main.py:410 | splitting undoes joining when no line holds a break |
| Output.IntToString | main.py:410 | defined as `str()` of an int: a minus sign for negative values, then the decimal digits; `Output.IntRoundTrip` and `Output.IntNoBreak` state its meaning |
| Output.FormatRecord | main.py:410 | defined as the exact concatenation line 410 writes; `Output.FormatIsLines` and `Output.FormatRoundTrip` state its lines and that it reads back as the record |
| Output.RecordLines | main.py:410 | a record's text has twelve lines |
| Output.FirstLines | main.py:410 | the text up to the university field is the brace and five field lines joined |
| Output.FormatIsLines | main.py:410 | a record's text is its brace, nine field lines, closing brace and a final empty line, joined by line breaks |
| Output.LabelledValue | main.py:410 | a field line reads back as that field's value |
| Output.LineNoBreak | main.py:410 | a field line holds no break when its value holds none |
| Output.LinesHaveNoBreaks | main.py:410 | none of a record's lines holds a break when no text field does |
| Output.ParseRecordLines | main.py:410 | the lines of a record read back as the same record |
| Output.FormatRoundTrip | main.py:410 | the text written for a record reads back as that record when no text field holds a line break |
| Output.FormatAllSnoc | main.py:409-410 | one more record appends its text to the output |
| Output.FormatAllAppend | main.py:409-410 | the text of two lists in a row is the text of their records in order |
| Output.FormatAllStep | main.py:409-410 | after i+1 records the output is the text of the first i plus that of record i |
| Output.WriteRecords | main.py:409-411 | the writing loop's output is the records' texts in list order |
| Report.ValidPrintable | main.py:130-136 | every valid record has a weight and an age for str() to write (lines 182-188 for age) |
| Report.Written | main.py:388-411 | defined as the valid records, sorted by weight or age when the menu asks for it; `Report.Run` shows they are what is written |
| Report.Run | main.py:320-411 | the counters are as in Process, and the output is the text of the valid records in the order the menu asks for; wherever line 389 as written does not fail, those are the records it returns |

## Left out

- The `FileWork` JSON reader and `argparse` are not part of this model. The record list and `menu` are parameters.
- `check_type_int` and the menu re-prompt loop (main.py:16-23, 324-328) are left out; `Batch.Process` takes the accepted answer, which is 0, 1 or 2.
- `tqdm` progress bars, the `print` report and the `datetime` timings are left out. They produce only screen output.
- The dump of the sorted list to `E:\lab2res.json` and its reload (main.py:393-399) return the same list, so the model treats them as the identity.
- The `v_counter` loop (main.py:404-406) only feeds the progress bar and is left out.
- The output file is a string; opening and writing it is left out.
- `Batch.Process`, `Report.Run`: both run the guarded sort `Batch.SortStep`. With menu 1 or 2 and no valid record, the script raises at main.py:272 (through line 389), after the summary and before the dump and the writing loop. In that case these two return normally, with an empty list and an empty text. `Batch.SortStepAsWritten` and `Batch.EmptyBatchSortFails` model the failure itself.
- `Output.ParseInt` reads back only what `str()` writes: an optional minus sign and decimal digits. It is not Python's `int()`, which also accepts a plus sign, surrounding whitespace and underscores.
- `Buckets.BucketSort`, `Buckets.Distribute`, `Buckets.RawIndex`, `Buckets.RawIndexRange`, `Buckets.BucketTies`: the bucket index is the exact `(v * n) / max`, where the code computes `int(v / (max / n))` in floating point. The two can differ on small inputs too.
  - With 14 records, maximum 18 and a key of 9, the exact index is 7. The code computes `9 / 1.2857142857142858 = 6.999999999999999` and puts the record in bucket 6.
  - With 7 records and maximum 9, the float index of the maximum is 6, not `n`. So the "equals `n` exactly for the maximum" clause of `RawIndexRange` holds for the exact index only.
  - Bucket membership therefore follows the exact index and not always the code's.
  - The float index is also non-decreasing in the key and lies in 0..n. So the buckets joined are still sorted and stable. By `Sorting.SortCharacterization` the code's result is then the same `Sort` of the input. This argument about float rounding is not itself proved here.
- `Buckets.BucketSort` requires non-negative keys and a positive maximum. For a zero maximum the code divides by zero. For a negative key with a positive maximum, `int()` at main.py:286 truncates toward zero, so there are three cases, none of them modelled:
  - A key above `-max/n` gets index 0 and goes to the first bucket. With 2 records and maximum 10, key -3 gives `int(-3 / 5.0) = int(-0.6) = 0`.
  - A key whose index lies in `-n..-1` picks a bucket from the end through Python's negative list index. Key -5 gives index -1, the last bucket.
  - A key whose index is below `-n` makes main.py:287 raise an `IndexError`. Key -15 gives index -3 on a list of 2 buckets.
  - None of these cases can reach the batch's sort, because every valid record has keys in 1..150 (`Batch.ValidRecordsSortable`).
- `FieldRules.CheckWeight`, `FieldRules.CheckAge`: a raw value is either an integer `int()` accepts or not (`None`). A valid weight or age that is not a JSON integer is not modelled. The script handles such values differently from the model:
  - `str()` writes the raw value, such as `70.5` or `"70"`.
  - A numeric string as sort key makes main.py:286 raise a `TypeError` (a string divided by a float).
  - A float key is sorted by its float value, and its bucket index can exceed `n`, which raises an `IndexError` at main.py:287.
- `FieldRules`: `\d` is the ASCII digits 0-9, where Python's `\d` also accepts other Unicode decimal digits.
- `Records.WeightOf`, `Records.AgeOf`: the default 0 for a missing value is never used, because only valid records are sorted.
- A record missing one of the nine keys makes the code raise a `KeyError`; the record datatype always has all nine fields.
- `Records.Record`: the seven text fields are strings, as the `str` annotations of main.py:74-75 declare. A JSON value of another type in one of them is not modelled. A number as telephone, for example, makes `re.match` raise a `TypeError` at main.py:117, and the same happens at main.py:146, 158, 170, 198, 210 and 222; the script then stops.

## Findings

| source | as written | input that shows it | evidently intended | confidence | as-written member | corrected member |
|---|---|---|---|---|---|---|
| main.py:388-389, 272 | with menu 1 or 2, `bucket_sort` is called even when no record is valid, and `max([])` raises a `ValueError` | an empty input, or one where every record fails a check, with menu 1 | an empty list of valid records is left as it is, and an empty output is written | not executed | Batch.SortStepAsWritten (shown by Batch.EmptyBatchSortFails) | Batch.SortStep |
