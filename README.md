# yt-analysis CSV header cleaner, modelled in Dafny

This project models the event handler that cleans CSV files uploaded to the
`raw/` area of a bucket (`lambda/lambda_function.py`). For each object key
it receives, the handler works as follows:

1. It skips any key that does not end in `.csv` or does not contain `raw/`.
2. Otherwise it reads the object and parses it into rows.
3. It normalises every name in the header row. The normalisation strips
   surrounding whitespace, lower-cases the name and replaces each maximal
   run of non-word characters by one `_`.
4. It writes the header and the unchanged data rows to the key obtained by
   replacing `raw/` with `clean/`, in the same bucket.
5. Any error becomes a status-500 response that carries the error's text.

The model has five modules:

- `Wrappers`: `Option` and `Result`.
- `ColumnNames`: `clean_column_name` and its three steps (`Strip`,
  `Lower`, `CollapseNonWord`). It uses ASCII character classes.
- `ObjectKeys`: the input-key guard (`IsInputKey`) and the `raw/` to
  `clean/` rewrite (`CleanKey`, through a model of `str.replace`).
- `Storage`: the object store as a class holding a map from (bucket, key)
  to an object body, with `GetObject` and `PutObject`.
- `Cleaner`: the row transformation (`CleanRows`), the header loop
  (`CleanHeader`) and the output buffer (`CsvBuffer`). It also holds a
  functional description of one invocation (`Handle`) and the imperative
  handler (`LambdaHandler`), which is proved to return `Handle`'s response
  and to leave the store as `Handle` says.

Two behaviours of the code worth noting:

- `"  Views!!"` normalises to `"views_"`, not `"views"`. The trailing run
  of punctuation becomes an underscore (`ColumnNames.ExampleViews`).
- The guard tests whether `raw/` occurs anywhere in the key, not whether
  the key lies under a `raw/` prefix. So a key such as
  `clean/raw/a.csv` is processed, and every `raw/` in it is rewritten.

## Model

| member | source | states |
|---|---|---|
| ColumnNames.CleanColumnName | lambda/lambda_function.py:13-14 | the normalised name holds only lower-case ASCII letters, digits and `_`, and is never longer than the input |
| ColumnNames.CleanColumnNameFixedPoints | lambda/lambda_function.py:13-14 | a name is returned unchanged if and only if it already consists of lower-case letters, digits and `_` |
| ColumnNames.CleanColumnNameIdempotent | lambda/lambda_function.py:14 | normalising a normalised name gives the same name |
| ColumnNames.CleanTwoWords | lambda/lambda_function.py:14 | two words separated by a non-word run, with whitespace around them, become the lower-cased words joined by one `_`; an empty second word leaves a trailing `_` |
| ColumnNames.ExampleVideoId | lambda/lambda_function.py:14 | `"Video ID"` becomes `"video_id"` |
| ColumnNames.ExampleLikeCount | lambda/lambda_function.py:14 | `"Like-Count"` becomes `"like_count"` |
| ColumnNames.ExampleViews | lambda/lambda_function.py:14 | `"  Views!!"` becomes `"views_"` |
| ColumnNames.ExampleDoubleUnderscore | lambda/lambda_function.py:14 | `"a__b"` stays `"a__b"`, because `_` is a word character |
| ColumnNames.Strip | lambda/lambda_function.py:14 | `name.strip()`: the result neither starts nor ends with whitespace |
| ColumnNames.StripRemovesSurroundingSpace | lambda/lambda_function.py:14 | the stripped string is a contiguous slice of the input, with only whitespace before and after it |
| ColumnNames.StripPadded | lambda/lambda_function.py:14 | surrounding whitespace is removed exactly: stripping `p + r + q` gives `r` when `p` and `q` are whitespace and `r` neither starts nor ends with whitespace |
| ColumnNames.Lower | lambda/lambda_function.py:14 | `.lower()`: same length; each upper-case letter is shifted to lower case, every other character is kept; no character changes between word, non-word and whitespace |
| ColumnNames.CollapseNonWord | lambda/lambda_function.py:14 | `re.sub(r'\W+', '_', s)`: the result holds only word characters, is no longer than the input, and has no upper-case letter if the input has none |
| ColumnNames.CollapseAllWord | lambda/lambda_function.py:14 | a string of word characters only is left unchanged by the substitution |
| ColumnNames.CollapseRun | lambda/lambda_function.py:14 | a word prefix followed by a maximal non-word run becomes the prefix and a single `_`, and the rest is processed on its own |
| ObjectKeys.ReplaceAll | lambda/lambda_function.py:45 | `str.replace`: a string without the pattern is returned unchanged |
| ObjectKeys.ReplaceAllSegment | lambda/lambda_function.py:45 | `str.replace` segment by segment: the text before the leftmost occurrence of the pattern is kept, that occurrence becomes the replacement, and the rest is replaced on its own; with the identity on a string without the pattern this fixes the result on every string |
| ObjectKeys.IsInputKey | lambda/lambda_function.py:23 | the guard (ends in `.csv` and contains `raw/`); a key that passes has room for both, as the two cannot overlap |
| ObjectKeys.CleanKey | lambda/lambda_function.py:45 | `key.replace("raw/", "clean/")`: a key without `raw/` is returned unchanged; `ReplaceAllSegment` gives the other case |
| ObjectKeys.CleanKeyHasNoRaw | lambda/lambda_function.py:45 | no `raw/` is left in the destination key |
| ObjectKeys.CleanKeyKeepsCsv | lambda/lambda_function.py:45 | a key ending in `.csv` still ends in `.csv` after the rewrite |
| ObjectKeys.CleanKeyIsNotInput | lambda/lambda_function.py:23 | no destination key passes the input guard |
| ObjectKeys.CleanKeyOfInput | lambda/lambda_function.py:23-45 | for an accepted key, the destination ends in `.csv` and differs from the source key |
| ObjectKeys.ExampleRawKey | lambda/lambda_function.py:23 | `raw/2024/file.csv` is accepted, and its destination is `clean/2024/file.csv` |
| ObjectKeys.ExampleOtherKey | lambda/lambda_function.py:23 | `other/file.csv` is not accepted |
| Storage.ObjectStore.GetObject | lambda/lambda_function.py:29-30 | reading succeeds exactly when the object exists and returns its body; a missing key fails with the NoSuchKey error text |
| Storage.ObjectStore.PutObject | lambda/lambda_function.py:46 | the body is stored under the reference, and every other object is unchanged |
| Cleaner.CleanRows | lambda/lambda_function.py:33-43 | fails with "CSV file is empty" exactly when there are no rows; otherwise gives the same number of rows, a header of the same width whose every name is `clean_column_name` of the input's name at that position, and the data rows unchanged and in order |
| Cleaner.CleanRowsIdempotent | lambda/lambda_function.py:37-43 | cleaning the rows of a cleaned file gives the same rows |
| Cleaner.ExampleHeaderRow | lambda/lambda_function.py:37-43 | the header `Video ID, "  Views!!", Like-Count` becomes `video_id, views_, like_count`, with any data rows following unchanged |
| Cleaner.CleanHeader | lambda/lambda_function.py:37 | the header loop gives a row of the same width whose every entry is the input's name at that position, normalised |
| Cleaner.CsvBuffer.WriteRow | lambda/lambda_function.py:42 | the buffer holds the rows written before, followed by the new row |
| Cleaner.CsvBuffer.WriteRows | lambda/lambda_function.py:43 | the buffer holds the rows written before, followed by the given rows in order |
| Cleaner.Handle | lambda/lambda_function.py:16-60 | the status is 200 or 500; an object is written exactly when the key is input and the status is 200, and the write goes to the destination key in the same bucket |
| Cleaner.LambdaHandler | lambda/lambda_function.py:16-60 | the handler returns `Handle`'s response, and the store afterwards is the old store with exactly `Handle`'s write applied |
| Cleaner.HandleSkipsOtherKeys | lambda/lambda_function.py:23-25 | a key that is not input gives status 200 with body "Not a valid input file", and nothing is written |
| Cleaner.HandleEmptyFile | lambda/lambda_function.py:33-35 | an input file with no rows gives status 500 with body "CSV file is empty", and nothing is written |
| Cleaner.HandleFailureWritesNothing | lambda/lambda_function.py:55-60 | for an input key: a missing object gives 500 with the NoSuchKey text, an unreadable body gives 500 with the decoding error, and a failed write of a non-empty file gives 500 with the write's error, each with nothing written (the empty file is `HandleEmptyFile`); conversely, status 500 holds exactly when nothing is written, and its body is always the text of one of these errors |
| Cleaner.HandleSuccess | lambda/lambda_function.py:45-53 | when the write succeeds, a non-empty input file gives exactly one write, to the destination key in the same bucket, holding the cleaned rows; the response is 200 and names that location |
| Cleaner.HandleKeepsSource | lambda/lambda_function.py:45-46 | the source object is never overwritten |
| Cleaner.HandleOutputIsSkipped | lambda/lambda_function.py:23-25 | the event for the object just written is skipped |
| Cleaner.HandleRerun | lambda/lambda_function.py:16-60 | when the writes succeed, handling the same event twice gives the same outcome, and the second run leaves the store as the first one did |

## Left out

- The storage service client (lambda/lambda_function.py:11, 29, 46) is modelled by `Storage.ObjectStore`. A failure of `put_object` is a parameter, `putFault`. Network errors, permissions and other service failures of `get_object` are not modelled, apart from a missing key.
- UTF-8 decoding and CSV parsing (lambda/lambda_function.py:30-31) are not modelled. An object's body is either its parsed rows (`Csv`) or the text of the error that decoding or parsing raises (`Unreadable`).
- CSV serialisation through `csv.writer` and `getvalue()` (lambda/lambda_function.py:40-43, 46) is not modelled. The written body is the row sequence, not its text, so quoting and line endings are not captured.
- Logging and the `json.dumps` of the event (lambda/lambda_function.py:8-9, 18, 24, 27, 48, 56) are not modelled. They only produce diagnostics.
- Reading the bucket and key out of the event payload (lambda/lambda_function.py:20-21) is not modelled, so the `KeyError` raised by a malformed event is not covered. The bucket and key are inputs.
- Python's Unicode character classes are not modelled, so non-ASCII names are outside the model:
  - whitespace is ASCII `isspace` (codes 9 to 13, 28 to 31 and 32);
  - `\w` is `[A-Za-z0-9_]`;
  - `lower()` changes only `A` to `Z`.
- `ObjectKeys.ReplaceAll`: requires a non-empty pattern. Python's behaviour for an empty pattern is not modelled, because the handler only calls it with `raw/`.
- `glue/glue_job_etl.py` is not part of this model. It consists only of calls into the Spark and Glue libraries.
