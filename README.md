# openFDA adverse-event ETL core, modelled in Dafny

This project models the two functions of `scripts/etlfunctions.py` that hold
the pipeline's logic.

- **`extract_data`** pages through the openFDA drug-event API. It starts at a
  fixed search URL. After each response it appends the body's `results`
  array and follows the `rel="next"` link of the `Link` header. It stops when
  `results` is absent, when there is no `Link` header or no usable next link,
  or when it holds at least the target number of records (79250).
  `Extraction.ExtractData` is that loop as a Dafny method. The HTTP side
  becomes a sequence of responses: the k-th request receives the k-th
  response. The method is proved equal to a specification function,
  `Extraction.Extract`, and the properties of the extraction are lemmas
  about that function.
- **`transform_data`** splits the raw report table into four tables:
  - `reports`: one row per report. The seriousness codes are decoded and the
    `YYYYMMDD` receipt date is parsed.
  - `patients`: one row per report, with age, rounded weight and decoded sex.
  - `symptoms`: one row per reaction.
  - `drugs`: one row per drug the reporter marked as a suspect cause.

  Each pandas step is modelled as the string function it applies, value by
  value:
  - `astype(str)`, where a missing value renders as `nan`;
  - `fillna(0)`, where a missing value renders as `0`;
  - `str.strip()`, over Python's whitespace set;
  - `replace(dict)`, which replaces whole values;
  - `str.replace`, which replaces substrings left to right without overlap;
  - `round()`, which rounds ties to even;
  - `explode`;
  - the boolean filter;
  - `to_datetime(format='%Y%m%d')`, which raises on the first value that does
    not parse.

  `Normalize.TransformData` composes these steps.

## Modules

| file | module | contents |
|---|---|---|
| `wrappers.dfy` | `Wrappers` | `Option`, `Result` |
| `pystr.dfy` | `PyStr` | the Python string operations the script uses: `split`, `strip`, `replace`, whole-value recoding |
| `rows.dfy` | `Rows` | column operations: map, boolean filter, explode-then-map (flat map), a conversion that fails on the first bad value |
| `extraction.dfy` | `Extraction` | the `Link` header parse, the paging loop and its specification |
| `raw.dfy` | `Raw` | the raw report record, missing values, `explode` |
| `dates.dfy` | `Dates` | the `%Y%m%d` parse and its round trip |
| `reports.dfy` | `Reports` | the `reports` table and the all-or-nothing date parse |
| `patients.dfy` | `Patients` | the `patients` table, half-to-even rounding |
| `symptoms.dfy` | `Symptoms` | the `symptoms` table |
| `drugs.dfy` | `Drugs` | the `drugs` table, the suspect filter, the product-type clean-up |
| `normalize.dfy` | `Normalize` | `transform_data` as a whole, cross-table keys, a worked sample |

## Behaviour of the code that is easy to misread

The model follows the code as written, including in these places:

- The extraction result is not cut to the target, although the comment at
  `scripts/etlfunctions.py:53` says it is. The cut sits inside the loop,
  after the check that leaves the loop once the target is reached, so it
  never shortens anything (see Findings).
- A report with no reactions, or with a missing reaction list, contributes
  one symptom row, not zero. `explode` yields one missing row for it, and
  `fillna(0)` turns that row into name `0` with outcome `UNKNOWN`
  (`Symptoms.SymptomsOfSpec`). An empty drug list contributes no drug row,
  because the placeholder row fails the suspect filter.
- An outcome code outside the table, such as `7`, is kept as it is; it does
  not become `UNKNOWN` (`Symptoms.SymptomOutcomeDecode`).
- A missing `serious` value reads `nan`, because it is rendered before
  `fillna`, and a missing sex reads `0`. The two seriousness flags, age,
  weight, drug type and drug texts get `NOT MENTIONED`.
- One receipt date that is missing, or that does not parse, aborts the whole
  transform. A missing date becomes `0` first, and `0` is not a date.
- The product-type clean-up replaces every `0` in the text, not only a
  whole-value `0`. A type containing the digit `0` has the sentinel spliced
  into it (`Drugs.DrugTypeSplicesZero`).

## Model

| member | source | states |
|---|---|---|
| Extraction.Extract | scripts/etlfunctions.py:22-54 | the specification of the loop; its meaning is stated by `FirstStop`, `RequestedAt`, `AccumulatedBlocks`, `ExtractStops`, `ExtractFollowsLinks`, `ExtractLengthBound` and `ExtractNothingWithoutTarget` |
| Extraction.ExtractScripted | scripts/etlfunctions.py:8-19 | `extract_data()` as the script runs it, from the fixed search URL with the fixed target of 79250 records, equals `Extract` of those |
| Extraction.ExtractData | scripts/etlfunctions.py:14-58 | the loop's outcome equals `Extract`: the records and request URLs up to the first response it does not go on from, or the failing URL when a status check raises |
| Extraction.NextLink | scripts/etlfunctions.py:36-41 | the next-link parse; stated by `NextLinkNone`, `NextLinkIsFirstMatch`, `NextLinkOfSingleLink` and `ScanLinkHeader` |
| Extraction.LinkTarget | scripts/etlfunctions.py:40 | the target of one segment; stated by `NextLinkIsFirstMatch`, `NextLinkOfSingleLink` and `NextLinkKeepsLeadingSpace` |
| Extraction.ScanLinkHeader | scripts/etlfunctions.py:36-41 | the segment scan returns exactly `NextLink` of the header |
| Extraction.FirstNextIndex | scripts/etlfunctions.py:38-39 | the index found is the first segment containing `rel="next"`; none is found only when no segment contains it |
| Extraction.NextLinkNone | scripts/etlfunctions.py:38-46 | no next link is found if and only if no comma-separated segment contains `rel="next"` |
| Extraction.NextLinkIsFirstMatch | scripts/etlfunctions.py:38-41 | when segment i is the first with `rel="next"`, the link is the `<>`-stripped text before that segment's first `;` |
| Extraction.NextLinkOfSingleLink | scripts/etlfunctions.py:38-41 | a header holding one link `<u>; rel="next"` yields `u` |
| Extraction.FirstStop | scripts/etlfunctions.py:22-51 | the first response after which the loop stops: every earlier one continues, this one does not |
| Extraction.RequestedAt | scripts/etlfunctions.py:19-23 | the k-th URL requested is the start URL for k = 0 and otherwise the link taken from response k-1 |
| Extraction.AccumulatedBlocks | scripts/etlfunctions.py:28-30 | each response's `results` array is one contiguous block of the output, in arrival order |
| Extraction.ExtractStops | scripts/etlfunctions.py:22-51 | a completed extraction stops at a response with good status and either no `results`, no `Link`, no usable next link, or the target reached; every earlier response continued; the records are the arrays fetched |
| Extraction.ExtractFollowsLinks | scripts/etlfunctions.py:19-44 | the first request goes to the start URL and each later one to the non-empty next link of the previous response |
| Extraction.ExtractLengthBound | scripts/etlfunctions.py:22-51 | the output is shorter than the target plus the last page's size |
| Extraction.ExtractNothingWithoutTarget | scripts/etlfunctions.py:22 | a target of zero or less makes no request and yields nothing |
| Extraction.ExtractOvershoots | scripts/etlfunctions.py:50-54 | as written: one page of three records with a next link, target two, yields all three records |
| Extraction.ExtractDataTrimmed | scripts/etlfunctions.py:53-54 | corrected: the loop's outcome with the trim applied after the loop |
| Extraction.TrimmedIsExact | scripts/etlfunctions.py:53-54 | corrected: the output is exactly the first min(target, fetched) records |
| Extraction.PrevNextSegments | scripts/etlfunctions.py:38-39 | `<a>; rel="prev", <b>; rel="next"` splits into two segments, and the second is the first with `rel="next"` |
| Extraction.NextLinkKeepsLeadingSpace | scripts/etlfunctions.py:38-40 | as written: the link taken from that header is ` <b`, with the space and the opening bracket kept |
| Extraction.LinkTargetCorrectedOf | scripts/etlfunctions.py:40 | corrected: the target of `ws<u>ws; params` is `u`, whatever whitespace surrounds the brackets |
| Extraction.NextLinkCorrectedFindsLaterLink | scripts/etlfunctions.py:38-40 | corrected: the link taken from that header is `b` |
| PyStr.SplitSpec | scripts/etlfunctions.py:38 | `split(c)`: no part contains c, and joining the parts with c gives back the string |
| PyStr.SplitJoin | scripts/etlfunctions.py:38 | splitting a join of parts free of c gives back the parts |
| PyStr.SplitHead | scripts/etlfunctions.py:40 | the first part of `split(';')` is the text before the first `;` |
| PyStr.LStripSpec | scripts/etlfunctions.py:40 | `lstrip(chars)` removes a prefix of characters in chars and stops at the first other character |
| PyStr.RStripSpec | scripts/etlfunctions.py:40 | `rstrip(chars)` removes a suffix of characters in chars and stops at the last other character |
| PyStr.StripCharsExact | scripts/etlfunctions.py:40 | stripping `lead + mid + trail` gives mid, when lead and trail are in chars and mid is not edged by them |
| PyStr.StripCharsIdempotent | scripts/etlfunctions.py:92 | stripping twice is stripping once |
| PyStr.ReplaceAll | scripts/etlfunctions.py:189-190 | `str.replace` leaves text without the pattern unchanged |
| PyStr.ReplaceAllSkip | scripts/etlfunctions.py:189-190 | text before the pattern's first character passes through `str.replace` untouched |
| PyStr.ReplaceCharRemovesIt | scripts/etlfunctions.py:190 | replacing a character by text without it leaves none of it |
| Rows.FilterSpec | scripts/etlfunctions.py:172 | a boolean mask keeps Count rows, each satisfying the predicate and taken from the input |
| Rows.FilterAppend | scripts/etlfunctions.py:172 | the mask keeps the kept rows' relative order |
| Rows.FlatMapBlock | scripts/etlfunctions.py:135-137 | after `explode`, the rows of input i form one contiguous block after those of the inputs before it |
| Rows.FlatMapOrigin | scripts/etlfunctions.py:135-138 | every exploded row comes from some input row |
| Rows.FlatMapLength | scripts/etlfunctions.py:135-137 | the exploded table has as many rows as the blocks together |
| Rows.Traverse | scripts/etlfunctions.py:90 | a failing whole-column conversion reports a position inside the column |
| Rows.TraverseSuccess | scripts/etlfunctions.py:90 | the conversion succeeds if and only if every value converts, and then gives each row's conversion in order |
| Rows.TraverseFailure | scripts/etlfunctions.py:90 | on failure, the reported position is the first value that does not convert |
| Raw.Explode | scripts/etlfunctions.py:135 | `explode` yields at least one row per list cell |
| Raw.ExplodeSpec | scripts/etlfunctions.py:135 | one row per element in order, and a single missing row for an empty or missing list |
| Dates.ParseYmd | scripts/etlfunctions.py:90 | a parsed date is a valid calendar date in years 1 to 9999 |
| Dates.ParseFormatted | scripts/etlfunctions.py:90 | formatting a valid date as `YYYYMMDD` and parsing it gives the date back |
| Dates.FormatParsed | scripts/etlfunctions.py:90 | a string that parses is the `YYYYMMDD` form of its date |
| Dates.DigitsValueOfDigits | scripts/etlfunctions.py:90 | reading back a zero-padded number gives the number |
| Dates.DigitsOfDigitsValue | scripts/etlfunctions.py:90 | writing a digit string's value at its own width gives the string |
| Reports.ReportRows | scripts/etlfunctions.py:85-90 | the reports table; stated by `ReportRowsSucceed`, `ReportRowsContent`, `ReportRowsFailure` and `MissingDateFails` |
| Reports.EventOutcome | scripts/etlfunctions.py:69-71 | the decoded `serious` code: the table codes map to their sentences and every other value passes through; stated by `EventOutcomeDecode` |
| Reports.SeriousnessFlag | scripts/etlfunctions.py:72-93 | a decoded seriousness flag; stated by `SeriousnessFlagDecode` and `SeriousnessFlagNeverNan` |
| Reports.ReportRowsSucceed | scripts/etlfunctions.py:85-90 | the reports table is produced if and only if every receipt date parses |
| Reports.ReportRowsContent | scripts/etlfunctions.py:66-93 | on success, one row per report in order, each decoded from its own report |
| Reports.ReportRowsFailure | scripts/etlfunctions.py:90 | on failure, the error names the first report whose date does not parse, and its text |
| Reports.MissingDateFails | scripts/etlfunctions.py:85-90 | one missing receipt date makes the whole table fail |
| Reports.ReportDateRoundTrip | scripts/etlfunctions.py:90 | a row's date, written as `YYYYMMDD`, is the receipt date it was read from |
| Reports.EventOutcomeDecode | scripts/etlfunctions.py:69-71 | the stripped code `1` reads as the life-threatening sentence and `2` as the not-serious one, and any other stripped value is returned unchanged; each sentence appears if and only if the code (or the sentence itself) was there; missing reads `nan` |
| Reports.SeriousnessFlagDecode | scripts/etlfunctions.py:72-75 | a flag reads YES for `1.0`, NO for `2.0`, `NOT MENTIONED` for `nan`, and otherwise the stripped text |
| Reports.SeriousnessFlagNeverNan | scripts/etlfunctions.py:92-93 | a flag never reads `nan`, and a missing flag reads `NOT MENTIONED` |
| Patients.PatientWeight | scripts/etlfunctions.py:126-127 | the rounded weight or the sentinel; stated by `PatientWeightSpec` and `WeightExamples` |
| Patients.PatientAge | scripts/etlfunctions.py:125 | the age or the sentinel; stated by `PatientAgeDecode` |
| Patients.PatientSex | scripts/etlfunctions.py:128-130 | the decoded sex: the table codes map to their names and every other value passes through; stated by `PatientSexDecode` |
| Patients.RoundHalfEvenSpec | scripts/etlfunctions.py:126 | the rounded weight is within a half of the weight, and even on a tie |
| Patients.RoundHalfEvenUnique | scripts/etlfunctions.py:126 | any integer with that property is the rounded weight |
| Patients.PatientWeightSpec | scripts/etlfunctions.py:126-127 | the weight is `NOT MENTIONED` if and only if it is missing or rounds to 0; otherwise it is the nearest whole number |
| Patients.WeightExamples | scripts/etlfunctions.py:126-127 | 70.6 reads 71, 2.5 reads 2, 0.4 reads `NOT MENTIONED` |
| Patients.PatientAgeDecode | scripts/etlfunctions.py:125 | the age reads `NOT MENTIONED` if and only if it is missing or already reads so; a present age, even the text `0`, is kept |
| Patients.PatientSexDecode | scripts/etlfunctions.py:128-130 | the stripped code `1` reads Male and `2` reads Female, and any other stripped value is returned unchanged; each name appears if and only if its code (or the name itself) was there; missing reads `0` |
| Patients.PatientRowsAligned | scripts/etlfunctions.py:100-124 | one patient row per report, in order, carrying that report's id and version |
| Symptoms.SymptomOutcome | scripts/etlfunctions.py:150-160 | the decoded reaction outcome: the seven table codes map to their names and every other value passes through; stated by `SymptomOutcomeDecode` |
| Symptoms.SymptomsOf | scripts/etlfunctions.py:135-160 | the symptom rows of one report; stated by `SymptomsOfSpec` and `SymptomIds` |
| Symptoms.SymptomOutcomeDecode | scripts/etlfunctions.py:150-160 | the stripped codes `1` to `5` read Recovered, Recovering, Not Recovered, Recovered with consequent health issues and Fatal; `6` and `0` read UNKNOWN; any other value is kept, so `7` reads `7`; a missing outcome reads UNKNOWN |
| Symptoms.SymptomsOfSpec | scripts/etlfunctions.py:135-153 | a report gives one row per reaction in order, or the single row `0`/UNKNOWN when it lists none; every row carries the report id |
| Symptoms.SymptomIds | scripts/etlfunctions.py:135-152 | every symptom row carries the id of some report |
| Symptoms.AtLeastOnePerReport | scripts/etlfunctions.py:135-137 | there are at least as many symptom rows as reports |
| Drugs.DrugsOf | scripts/etlfunctions.py:165-193 | the drug rows of one report; stated by `DrugsOfSpec`, `DrugIds` and `NoSuspectNoRow` |
| Drugs.DrugType | scripts/etlfunctions.py:188-190 | the cleaned product type; stated by `DrugTypeNoZero`, `DrugTypeMissing`, `DrugTypeOfList`, `DrugTypeOfPair` and `DrugTypeSplicesZero` |
| Drugs.DrugText | scripts/etlfunctions.py:191-193 | a drug name, purpose or substance: the stripped whole value `0` becomes the sentinel and every other stripped value passes through; stated by `DrugTextDecode` |
| Drugs.FilterWrapAll | scripts/etlfunctions.py:166-172 | filtering the exploded rows is filtering the drug list: a placeholder row never passes |
| Drugs.DrugsOfSpec | scripts/etlfunctions.py:165-193 | a report gives one row per suspect drug in order; the count is the number of suspects; each row is decoded from its drug and carries the report id |
| Drugs.DrugIds | scripts/etlfunctions.py:169-187 | every drug row has characterization 1 and the id of some report |
| Drugs.NoSuspectNoRow | scripts/etlfunctions.py:172 | a report with no suspect drug contributes no row |
| Drugs.DrugTypeNoZero | scripts/etlfunctions.py:190 | the drug type never contains the digit `0` |
| Drugs.DrugTypeMissing | scripts/etlfunctions.py:183-190 | a missing product type reads `NOT MENTIONED` |
| Drugs.DrugTypeOfList | scripts/etlfunctions.py:188-190 | `['x']` reads x with each `0` replaced by the sentinel, so a type without `0` reads as itself |
| Drugs.DrugTypeOfPair | scripts/etlfunctions.py:188-190 | `['x', 'y']` reads `x', 'y`: only the outer brackets and quotes go, so a list of two types stays one run-together text |
| Drugs.DrugTypeSplicesZero | scripts/etlfunctions.py:190 | `['A0']` reads `A` followed by `NOT MENTIONED` |
| Drugs.DrugTextDecode | scripts/etlfunctions.py:191-193 | name, purpose and substance never read `0`; they read `NOT MENTIONED` if and only if the stripped text is `0` or the sentinel; the stripped `0` reads `NOT MENTIONED` and every other stripped value is returned unchanged |
| Normalize.TransformData | scripts/etlfunctions.py:61-195 | the four tables; stated by `TransformSucceeds`, `TransformKeys`, `TransformOne` and `SampleTransform` |
| Normalize.TransformSucceeds | scripts/etlfunctions.py:61-195 | the transform succeeds if and only if every receipt date parses, and otherwise reports the first that does not |
| Normalize.TransformKeys | scripts/etlfunctions.py:61-195 | on success, the i-th report and patient rows share id and version; every symptom and drug row refers to some report row's id; there are at least as many symptom rows as reports |
| Normalize.TransformOne | scripts/etlfunctions.py:61-195 | a single report with a valid date gives its own row in each table |
| Normalize.SampleTransform | scripts/etlfunctions.py:61-195 | the worked sample (id 123, weight 70.6, one reaction, one suspect and one other drug) gives one report row, a 71 kg Male patient row, one Recovered symptom row and one drug row |

## Left out

- `scripts/AIRFLOW.py`, the scheduling, S3 staging and warehouse load, is not part of this model.
- HTTP, JSON decoding and `raise_for_status`: a response is modelled only by its status verdict, its `results` array and its `Link` header. A malformed body, a network error and a non-list `results` value are not modelled.
- Extraction.ExtractData: the k-th request gets the k-th scripted response, whatever URL it asks for; the model records the URLs but does not tie the responses to them.
- Extraction.NextLink: quoted commas inside a `Link` header, as RFC 8288 allows, are not handled; neither does the script handle them.
- The CSV round trip between extraction and transformation is not modelled. Neither is pandas' per-column type inference. A cell is given as the text `astype(str)` renders, or as missing.
- The `eval` of the `patient` column and `json_normalize` are modelled as already yielding the typed `Patient`, `Reaction` and `Drug` records. A column missing from every row, which makes pandas raise `KeyError`, is not modelled.
- Patients.PatientWeight: the weight is a real number; the parse of its text and binary floating-point rounding are not modelled.
- Dates.ParseYmd: only the eight-digit form of `%Y%m%d` is modelled. Shorter forms that `strptime` also accepts, and pandas' Timestamp range (years 1677 to 2262), are not modelled.
- `str.replace` with `['` and `']` is modelled as a literal replacement, as pandas 2 does it; older pandas treated the pattern as a regular expression.
- Python's whitespace set is written out for `strip()`. Unicode normalisation and case are not modelled.
- The `print` and `logging` calls are left out: they have no effect on the result.

## Findings

| source | as written | input that shows it | evidently intended | confidence | as-written member | corrected member |
|---|---|---|---|---|---|---|
| scripts/etlfunctions.py:50-54 | the trim to `total_records` runs inside the loop, right after the check that leaves the loop once the target is reached, so it never shortens anything | one page of records [1, 2, 3] with a next link, target 2: the output holds all three | the output cut to exactly `total_records` | high; not executed | Extraction.ExtractOvershoots | Extraction.ExtractDataTrimmed, Extraction.TrimmedIsExact |
| scripts/etlfunctions.py:38-40 | the target of a `rel="next"` segment is stripped of `<` and `>` only, so the space after the separating comma stays and blocks the strip of `<` | header `<a>; rel="prev", <b>; rel="next"`: the next URL becomes ` <b` | the URL `b` | medium (the API sends a single link); not executed | Extraction.NextLinkKeepsLeadingSpace | Extraction.NextLinkCorrectedFindsLaterLink |
