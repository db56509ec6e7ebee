# ASIN image downloader — a verified model of its core

The ASIN image downloader reads a table of products (one row per ASIN, with
several columns of image URLs), downloads the images and packs them, renamed
`<ASIN>.<suffix><ext>`, into one ZIP archive per batch of ASINs. Every attempted
download leaves a diagnostic event. This project models the core of
`asin_image_downloader.py` in Dafny and proves properties of that model:

- `UrlValidator` — which cells count as downloadable URLs (`is_valid_url`);
- `Extension` — how a file extension is inferred from the URL or the
  `Content-Type` header (`infer_ext`);
- `Suffix` — how a column name becomes `Swatch`, `Main` or a positional `PTnn`
  suffix (`suffix_for_column`);
- `Fetch` — how an HTTP response, a timeout or a transport error is classified
  (`download_bytes`);
- `BatchBuilder` — building one batch's archive, counters and events
  (`build_zip_for_batch`), as a method with nested loops checked against
  specification functions;
- `Orchestrator` — splitting the ASINs into batches, naming each archive and
  collecting all events (the batching loop of the page script), again as a
  method with a loop checked against specification functions.

Helpers for the Python string operations the source relies on (`str.strip`,
ASCII `str.lower`, `str.split()`, `str.replace`, `in`) live in `Text`; `str(int)`
and `f"{n:02d}"` live in `Decimal`; `Option` lives in `Wrappers`.

A row is a map from column name to cell, a cell being `None` or the text that
`str()` renders for it. The downloader is a parameter `fetch: string -> Response`
(one response per URL), so every function of the batch is a function of the
rows, the columns and `fetch`. An archive is the sequence of `(name, bytes)`
entries written to it, in order.

## Model

| member | source | states |
|---|---|---|
| UrlValidator.IsValidUrlContract | asin_image_downloader.py:30-40 | a cell is valid exactly when it is present and its stripped, lower-cased text is not one of the null-like words and starts with `http://` or `https://` |
| UrlValidator.ValidCellHasScheme | asin_image_downloader.py:37-40 | a valid cell's stripped text is at least 7 characters long and, lower-cased, starts with an http(s) scheme |
| UrlValidator.NoneRejected | asin_image_downloader.py:35-36 | a missing cell is rejected |
| UrlValidator.BlankRejected | asin_image_downloader.py:37-39 | every cell made of whitespace only (the empty one included) is rejected, since stripping leaves the null-like empty text |
| UrlValidator.NullLikeRejected | asin_image_downloader.py:37-39 | every cell whose text, lower-cased, is one of the null-like words (`nan`, `none`, `null`, `na`, `true`, `false` or empty) is rejected, whatever its case |
| UrlValidator.NaNRejected | asin_image_downloader.py:37-39 | every cell whose text is `nan` in any mix of cases (`NaN`, `NAN`, ...) is rejected |
| UrlValidator.BooleanRejected | asin_image_downloader.py:37-39 | every cell whose text is `true` or `false` in any mix of cases is rejected |
| UrlValidator.OtherSchemeRejected | asin_image_downloader.py:40 | an `ftp://` URL is rejected |
| UrlValidator.HttpsAccepted | asin_image_downloader.py:40 | an `https://` URL is accepted |
| UrlValidator.UpperCaseSchemeAccepted | asin_image_downloader.py:37-40 | for every cell text, the verdict equals the verdict on the lower-cased text, so the scheme and the null-like words are compared case-insensitively |
| UrlValidator.IsValidUrl | asin_image_downloader.py:30-40 | `is_valid_url` of a cell; its meaning is stated by IsValidUrlContract |
| UrlValidator.CellText | asin_image_downloader.py:37 | `str(url)` of a cell: the cell's text, `None` for a missing cell |
| UrlValidator.Normalize | asin_image_downloader.py:37 | `.strip().lower()` of the cell text |
| UrlValidator.HasHttpScheme | asin_image_downloader.py:40 | starts with `http://` or `https://`; IsValidUrlContract and ValidCellHasScheme use it |
| Extension.InferExt | asin_image_downloader.py:43-69 | the inferred extension is always one of the eight the function can return |
| Extension.UrlExtensionExactly | asin_image_downloader.py:50-52 | the path yields extension `x` exactly when `x` is a known extension and the lower-cased path (before a final newline) ends with it |
| Extension.SuffixUnique | asin_image_downloader.py:50 | no path ends with two different known extensions, so the regex's answer is unique |
| Extension.DotOnlyFirst | asin_image_downloader.py:50 | every known extension is a dot followed by dot-free letters |
| Extension.NoQueryUnchanged | asin_image_downloader.py:49 | a URL without `?` or `#` is left as it is |
| Extension.QueryDropped | asin_image_downloader.py:49 | when the text after the first `?` or `#` has no newline, everything from that character on is removed |
| Extension.CutSkips | asin_image_downloader.py:49 | the regex's scan passes over every position where no match starts |
| Extension.CutAtFirstMatch | asin_image_downloader.py:49 | the cut is at the leftmost match: the first `?` or `#` followed by no newline except a final one, which is kept; a `?` or `#` followed by a non-final newline is passed over |
| Extension.NoMatchUnchanged | asin_image_downloader.py:49 | a URL with no such match is left as it is |
| Extension.MultiLineKept | asin_image_downloader.py:49 | `a?b` newline `c` is left unchanged |
| Extension.MultiLineCutLater | asin_image_downloader.py:49 | `a?b` newline `c#d` is cut at the `#`, giving `a?b` newline `c` |
| Extension.NoDotNoExtension | asin_image_downloader.py:50-51 | a path without a dot gives no URL extension |
| Extension.UrlExtensionWins | asin_image_downloader.py:50-52 | when the URL has an extension, it is the answer and the content type is ignored |
| Extension.ContentTypeDecidesOtherwise | asin_image_downloader.py:55-69 | without a URL extension, a mapped media type gives its extension and anything else gives `.jpg` |
| Extension.BeforeSemicolonAt | asin_image_downloader.py:56 | the media type is the text before the first `;` |
| Extension.MediaTypeBeforeParameters | asin_image_downloader.py:56 | a lower-case, unpadded media type followed by parameters is the part before `;` |
| Extension.MediaTypeExample | asin_image_downloader.py:56 | `image/webp; charset=binary` has media type `image/webp` |
| Extension.PlainUrl | asin_image_downloader.py:49-51 | `http://x/y` has no URL extension |
| Extension.ContentTypeExample | asin_image_downloader.py:55-67 | `http://x/y` with `image/webp; charset=binary` gives `.webp` |
| Extension.QueryStrippedExample | asin_image_downloader.py:49-52 | `http://x/y.PNG?v=2` gives `.png` |
| Extension.FallbackExample | asin_image_downloader.py:69 | no extension and no content type give `.jpg` |
| Extension.JpegKept | asin_image_downloader.py:50-52 | `.jpeg` is kept as `.jpeg`, not rewritten to `.jpg` |
| Extension.TiffLowerCased | asin_image_downloader.py:50-52 | `.TIFF` becomes `.tiff` |
| Extension.StripQueryAndFragment | asin_image_downloader.py:49 | the URL cut at the first `?` or `#` that no non-final newline follows, keeping a final newline, and unchanged when there is none; see CutAtFirstMatch, NoMatchUnchanged, NoQueryUnchanged and QueryDropped |
| Extension.UrlExtension | asin_image_downloader.py:50-52 | the lower-cased known extension the path ends with, if any; its contract says it is known and the path ends with it, and UrlExtensionExactly gives the converse |
| Extension.MediaType | asin_image_downloader.py:56 | the stripped, lower-cased part of the content type before its first `;`; see BeforeSemicolonAt and MediaTypeBeforeParameters |
| Extension.BeforeSemicolon | asin_image_downloader.py:56 | `split(";")[0]`: the longest prefix without `;`, ended by the first `;` or the end of the text |
| Suffix.SuffixForColumnContract | asin_image_downloader.py:72-88 | `Swatch` exactly when the normalised name contains `swatch`; otherwise `Main` exactly when it is main-named; otherwise `PT` with the counter in two digits and the counter advanced by one; `Swatch` and `Main` leave the counter alone |
| Suffix.MainRuleIsTokenRule | asin_image_downloader.py:83 | the two exact names add nothing: a name is main-named exactly when `main` and `image` are among its words |
| Suffix.ExactMainNamesHaveBothTokens | asin_image_downloader.py:83 | `main image` and `image main` both contain the two words |
| Suffix.WithoutNNotMain | asin_image_downloader.py:83 | a name without the letter `n` is never main-named |
| Suffix.WithoutWNPositional | asin_image_downloader.py:80-85 | a name without `w` and `n` is neither swatch nor main |
| Suffix.PtSuffixInjective | asin_image_downloader.py:87 | two counters give the same `PT` suffix exactly when they are equal |
| Suffix.NormalizedSwatchImage | asin_image_downloader.py:77 | `Swatch Image` normalises to `swatch image` |
| Suffix.SwatchExample | asin_image_downloader.py:80-81 | `Swatch Image` gives `Swatch` and keeps the counter |
| Suffix.NormalizedMainImage | asin_image_downloader.py:77 | `Main Image` normalises to `main image` |
| Suffix.MainExample | asin_image_downloader.py:83-85 | `Main Image` gives `Main` and keeps the counter |
| Suffix.NormalizedUnderscored | asin_image_downloader.py:77 | underscores become spaces: `main_image` normalises to `main image` |
| Suffix.UnderscoreExample | asin_image_downloader.py:77-85 | `main_image` gives `Main` |
| Suffix.NormalizedSwatchMainImage | asin_image_downloader.py:77 | `Swatch Main Image` normalises to `swatch main image` |
| Suffix.SwatchBeatsMain | asin_image_downloader.py:80-85 | every name that contains `swatch` and is also main-named gives `Swatch`, with the counter unchanged |
| Suffix.SwatchMainExample | asin_image_downloader.py:80-81 | `Swatch Main Image` gives `Swatch` and keeps the counter |
| Suffix.NormalizedImage2 | asin_image_downloader.py:77 | `Image 2` normalises to `image 2` |
| Suffix.PositionalExample | asin_image_downloader.py:87-88 | `Image 2` with counter 1 gives `PT01` and counter 2 |
| Suffix.NormalizedImage3 | asin_image_downloader.py:77 | `Image 3` normalises to `image 3` |
| Suffix.SecondPositionalExample | asin_image_downloader.py:87-88 | `Image 3` with counter 2 gives `PT02` and counter 3 |
| Suffix.NormalizedHyphenated | asin_image_downloader.py:77 | hyphens are kept: `Main-Image` normalises to `main-image` |
| Suffix.OneTokenNotMain | asin_image_downloader.py:78-83 | `main-image` is one word, so it is not main-named |
| Suffix.HyphenatedExample | asin_image_downloader.py:77-88 | `Main-Image` gets the positional suffix `PT01` |
| Suffix.NormalizeColumn | asin_image_downloader.py:77 | the stripped, lower-cased column name with `_` replaced by a space; the Normalized examples pin it down on the column names `Swatch Image`, `Main Image`, `main_image`, `Swatch Main Image`, `Image 2`, `Image 3` and `Main-Image` |
| Suffix.IsMainNamed | asin_image_downloader.py:83 | one of the two exact main names, or both `main` and `image` among the words; MainRuleIsTokenRule shows the token test alone decides |
| Suffix.PtSuffix | asin_image_downloader.py:87 | `PT` followed by the counter padded to two digits; PtSuffixInjective shows different counters give different suffixes |
| Suffix.SuffixForColumn | asin_image_downloader.py:72-88 | `suffix_for_column`: the suffix and the next counter; its contract is SuffixForColumnContract |
| Fetch.ClassifyContract | asin_image_downloader.py:100-109 | content exactly for a 2xx response with a non-empty body, and then it is the body; an error exactly when there is no content; status and content type only for responses; `HTTP <status>`, `timeout` or the exception text as the error |
| Fetch.HttpErrorNamesStatus | asin_image_downloader.py:105 | the error of a response without content is `HTTP ` followed by the decimal digits of its status |
| Fetch.NotFoundExample | asin_image_downloader.py:105 | a 404 gives no content, its content type, status 404 and `HTTP 404` |
| Fetch.EmptyBodyFails | asin_image_downloader.py:103-105 | a 200 with an empty body fails with `HTTP 200` |
| Fetch.Classify | asin_image_downloader.py:100-109 | `download_bytes` on an already received response, timeout or transport error; its contract is ClassifyContract |
| Fetch.IsSuccessStatus | asin_image_downloader.py:103 | the status test `200 <= status < 300` |
| Decimal.NatToDecimal | asin_image_downloader.py:105 | the digits of `str(n)`: non-empty, digits only, value `n`, no leading zero |
| Decimal.Pad2 | asin_image_downloader.py:87 | `f"{n:02d}"`: digits with value `n`, exactly two of them below 10, and the plain digits of `n` from 10 on |
| Decimal.Pad2Injective | asin_image_downloader.py:87 | different numbers give different padded texts |
| Decimal.DigitPrefixUnique | asin_image_downloader.py:252 | a digit run followed by a non-digit is read back uniquely |
| Decimal.IntToDecimal | asin_image_downloader.py:105 | `str(status)` in `f"HTTP {status}"`: a minus sign before the digits of a negative value; for the non-negative statuses an HTTP response carries, HttpErrorNamesStatus reads the digits back |
| Text.Strip | asin_image_downloader.py:37 | `str.strip()`: no space at either end, nothing left of an all-space text, an unpadded text unchanged |
| Text.StripExactly | asin_image_downloader.py:37 | the stripped text is the slice of `s` right after its leading whitespace, only whitespace precedes and follows that slice, and the slice has no whitespace at either end |
| Text.Lower | asin_image_downloader.py:37 | `str.lower()` on ASCII letters, character by character |
| Text.ReplaceChar | asin_image_downloader.py:77 | `str.replace` of one character, character by character |
| Text.Words | asin_image_downloader.py:78 | `str.split()`: non-empty words without spaces |
| Text.SingleWord | asin_image_downloader.py:78 | a text without spaces is one word |
| Text.TwoWords | asin_image_downloader.py:78 | two words joined by a space split back into the two |
| Text.WordsOccur | asin_image_downloader.py:78 | every word occurs in the text |
| Text.WordsExactly | asin_image_downloader.py:78 | `w` is a word of `split()` exactly when it is a maximal non-whitespace run of the text: non-empty, without whitespace, with whitespace or an end of the text on both sides |
| Text.WordPosition | asin_image_downloader.py:78 | every word of `split()` stands somewhere in the text as a maximal non-whitespace run |
| Text.WordAtIsWord | asin_image_downloader.py:78 | every maximal non-whitespace run of the text is a word of `split()` |
| Text.TokenLengthOfRun | asin_image_downloader.py:78 | a leading run of non-whitespace ended by whitespace or the end of the text is the first token |
| Text.LowerStripAgree | asin_image_downloader.py:37 | texts equal once lower-cased are also equal once stripped and lower-cased: lower-casing neither adds nor removes whitespace |
| Text.LowerUnchanged | asin_image_downloader.py:37 | a text without upper-case ASCII letters is its own lower case |
| Text.MissingCharNotContained | asin_image_downloader.py:80 | a text lacking a character of the pattern does not contain it |
| Text.IsSpace | asin_image_downloader.py:37 | the whitespace set of Python's `str.isspace`, which `strip()` and `split()` use |
| Text.StartsWith | asin_image_downloader.py:40 | `str.startswith` for one prefix |
| Text.Contains | asin_image_downloader.py:80 | the substring test `"swatch" in c`; MissingCharNotContained and WordsOccur carry its properties |
| BatchBuilder.RowAttempts | asin_image_downloader.py:135-143 | the suffix pass of one row; the PT counter after it is its start value 1 plus the number of positional suffixes handed out |
| BatchBuilder.SkippedColumn | asin_image_downloader.py:138-140 | an invalid cell adds no attempt and leaves the counter alone |
| BatchBuilder.AttemptedColumn | asin_image_downloader.py:138-143 | a valid cell adds one attempt with the stripped URL and the suffix and counter `suffix_for_column` gives |
| BatchBuilder.RowColumns | asin_image_downloader.py:137-143 | the attempted columns of a row are exactly its valid columns, in the given order |
| BatchBuilder.RowPtNumbering | asin_image_downloader.py:135-143 | the positional suffixes of a row are `PT01`, `PT02`, ... in order with no gap, ending just below the final counter |
| BatchBuilder.PtRunStep | asin_image_downloader.py:87-88 | handing out the next positional suffix extends that run by one |
| BatchBuilder.PtRunDistinct | asin_image_downloader.py:87-88 | no two positional suffixes of a row are equal |
| BatchBuilder.RowAttemptFacts | asin_image_downloader.py:134-143 | every attempt of a row carries the row's ASIN, a valid cell's stripped URL and `Swatch`, `Main` or a `PT` suffix according to the column-name rules |
| BatchBuilder.FailureText | asin_image_downloader.py:171 | the recorded error is the error message when there is a non-empty one, and `download_failed` when it is missing or empty |
| BatchBuilder.EventFor | asin_image_downloader.py:146-173 | an event echoes ASIN, column, URL and status; it has a file name exactly when something was downloaded, and then that name and no error; otherwise the error message, or `download_failed` when it is missing or empty |
| BatchBuilder.EventsOf | asin_image_downloader.py:152-173 | one event per attempt |
| BatchBuilder.EventAt | asin_image_downloader.py:152-173 | the k-th event describes the k-th attempt |
| BatchBuilder.ArchiveMatchesEvents | asin_image_downloader.py:146-176 | the archive's entry names are the file names of the success events, in order, and entries plus failures make up all attempts |
| BatchBuilder.EventsAppend | asin_image_downloader.py:152-173 | events of consecutive attempts concatenate |
| BatchBuilder.ArchiveAppend | asin_image_downloader.py:150 | archive entries of consecutive attempts concatenate |
| BatchBuilder.FailureCountAppend | asin_image_downloader.py:163 | failures of consecutive event runs add up |
| BatchBuilder.DownloadedStep | asin_image_downloader.py:146-161 | a download adds one entry named `<asin>.<suffix><ext>` and one success event, and no failure |
| BatchBuilder.FailedStep | asin_image_downloader.py:162-173 | a failure adds no entry, one failure event with the error text, and one failure |
| BatchBuilder.FetchAndStore | asin_image_downloader.py:145-173 | after one attempt, the entries, the events and both counts are those of the attempts so far plus this one |
| BatchBuilder.ProcessRow | asin_image_downloader.py:134-173 | one row's entries and events are those of its attempts; the written and error counts match them |
| BatchBuilder.BatchAttemptsStep | asin_image_downloader.py:133-134 | the attempts of one more row follow those of the rows before |
| BatchBuilder.RowStep | asin_image_downloader.py:133-173 | a processed row's entries, events and failures extend those of the batch so far |
| BatchBuilder.BatchAttemptsAppend | asin_image_downloader.py:133 | the attempts of two row runs concatenate |
| BatchBuilder.BuildZipForBatch | asin_image_downloader.py:112-177 | the archive and events are those of the batch's attempts; counters are the entries written, the rows in the batch and the failure events |
| BatchBuilder.SwatchColumn | asin_image_downloader.py:137-143 | a valid swatch column adds a `Swatch` attempt and leaves the counter alone |
| BatchBuilder.FirstSwatchColumn | asin_image_downloader.py:137-143 | a valid swatch column that comes first is the row's only attempt, as `Swatch`, with the counter still at 1 |
| BatchBuilder.TwoSwatchColumns | asin_image_downloader.py:137-143 | two valid swatch columns both get `Swatch` |
| BatchBuilder.TwoDownloads | asin_image_downloader.py:146-150 | two downloads give two entries in order |
| BatchBuilder.SwatchColumnsCollide | asin_image_downloader.py:143-150 | two swatch columns with the same extension write two entries under the same name |
| BatchBuilder.Columns | asin_image_downloader.py:155 | the column of each attempt, in order |
| BatchBuilder.Get | asin_image_downloader.py:138 | `row.get(col, None)`: the cell, or `None` when the row lacks the column |
| BatchBuilder.RowAsin | asin_image_downloader.py:134 | the stripped text of the row's ASIN cell, the stem of every file name of the row |
| BatchBuilder.FileName | asin_image_downloader.py:149 | `<asin>.<suffix><ext>`; DownloadedStep and EventFor show it is both the entry name and the recorded `Saved As` |
| BatchBuilder.ArchiveOf | asin_image_downloader.py:146-151 | the entries written for a run of attempts, one per successful download, in order; ArchiveAppend, DownloadedStep, FailedStep and ArchiveMatchesEvents carry its properties |
| BatchBuilder.Names | asin_image_downloader.py:150 | the names of the archive entries, one per entry |
| BatchBuilder.BatchAttempts | asin_image_downloader.py:133-143 | the attempts of a batch, row by row and column by column; BatchAttemptsStep, BatchAttemptsAppend and RowColumns carry its properties |
| BatchBuilder.RowPass | asin_image_downloader.py:135-143 | the column loop of one row: the attempts of RowAttempts for the row's ASIN |
| BatchBuilder.Outcome | asin_image_downloader.py:145 | `download_bytes(url)` of an attempt: the classification of what the fetcher answers for its URL |
| BatchBuilder.Downloaded | asin_image_downloader.py:146 | `if content:`: content present and non-empty |
| BatchBuilder.SavedName | asin_image_downloader.py:147-149 | the file name of a downloaded attempt, with the extension inferred from its URL and content type |
| BatchBuilder.FailureCount | asin_image_downloader.py:163 | the `errors` counter: the number of failure events; FailureCountAppend, FailedStep and ArchiveMatchesEvents carry its properties |
| Orchestrator.GenerateBatches | asin_image_downloader.py:225-253 | stops exactly when no image column is chosen; otherwise the payloads are those of the batches in order and all events are the batches' events concatenated |
| Orchestrator.LoopStep | asin_image_downloader.py:237-253 | one loop turn appends the batch's payload and its events |
| Orchestrator.NumBatchesIsCeiling | asin_image_downloader.py:230 | the batch count is the ceiling of ASINs over batch size: enough batches, no empty last one, none for no ASINs |
| Orchestrator.Batches | asin_image_downloader.py:230-240 | one batch per loop turn |
| Orchestrator.Payloads | asin_image_downloader.py:237-253 | one payload per batch |
| Orchestrator.EventLog | asin_image_downloader.py:237-249 | one event list per batch |
| Orchestrator.Cut | asin_image_downloader.py:238-240 | a slice bound never passes the end of the table |
| Orchestrator.CutStep | asin_image_downloader.py:238-239 | each batch ends one batch size after it starts, clipped to the table |
| Orchestrator.CutClips | asin_image_downloader.py:238-240 | the clipped `start`/`end` of the loop are the cut points, in order |
| Orchestrator.CutEnd | asin_image_downloader.py:230-240 | the last batch ends at the end of the table |
| Orchestrator.BatchSize | asin_image_downloader.py:238-240 | every batch has between 1 and batch-size ASINs, and all but the last exactly batch-size |
| Orchestrator.BatchHasAsin | asin_image_downloader.py:240 | a slice of rows with an ASIN column still has it |
| Orchestrator.BatchesPrefix | asin_image_downloader.py:237-240 | the first i batches together are the table up to the i-th cut |
| Orchestrator.BatchesPartition | asin_image_downloader.py:237-240 | the batches together are the whole table, once each and in order |
| Orchestrator.DivUnique | asin_image_downloader.py:238-239 | row r lies in the range of batch i exactly when i is r divided by the batch size |
| Orchestrator.RowInBatch | asin_image_downloader.py:238-240 | row r lands in batch i exactly when i is r divided by the batch size |
| Orchestrator.RowPosition | asin_image_downloader.py:238-240 | row r is the (r mod size)-th row of batch r div size, and that batch exists |
| Orchestrator.PayloadAsins | asin_image_downloader.py:176 | a payload's ASIN count is its batch's number of rows |
| Orchestrator.TotalAsinsSnoc | asin_image_downloader.py:176 | ASIN counts of payloads add up |
| Orchestrator.AsinsPrefix | asin_image_downloader.py:237-253 | the ASIN counts of the first i payloads sum to the i-th cut |
| Orchestrator.AsinsSumToRows | asin_image_downloader.py:237-253 | the ASIN counts of all payloads sum to the number of ASINs |
| Orchestrator.EventsPrefix | asin_image_downloader.py:237-249 | the events of the first i batches are those of processing the first rows in one go |
| Orchestrator.BatchRowsAppend | asin_image_downloader.py:240-249 | the events of two adjacent row ranges concatenate |
| Orchestrator.FlattenSnoc | asin_image_downloader.py:249 | extending by one more batch's events appends them |
| Orchestrator.EventsIndependentOfBatching | asin_image_downloader.py:237-249 | all events together are exactly those of processing the whole table as one batch, whatever the batch size |
| Orchestrator.LabelInjective | asin_image_downloader.py:252 | two batches of one run get the same archive name exactly when they are the same batch |
| Orchestrator.LabelExample | asin_image_downloader.py:252 | the second of twelve batches is `asin_batch_02_of_12.zip` |
| Orchestrator.NumBatches | asin_image_downloader.py:230 | the number of batches, the ceiling of ASINs over batch size; NumBatchesIsCeiling states it |
| Orchestrator.Batch | asin_image_downloader.py:238-240 | `df.iloc[start:end]` for batch i, with both bounds clipped to the table; BatchSize, BatchesPartition and RowPosition carry its properties |
| Orchestrator.Label | asin_image_downloader.py:252 | the archive name `asin_batch_NN_of_MM.zip`; LabelInjective and LabelExample carry its properties |
| Orchestrator.PayloadFor | asin_image_downloader.py:241-253 | the payload of loop turn i: the archive name, the archive and the counters of `build_zip_for_batch` on batch i; PayloadAsins and GenerateBatches use it |
| Orchestrator.BatchEvents | asin_image_downloader.py:243-249 | the events of batch i, which loop turn i appends to `all_events` |

## Left out

- The Streamlit page: upload and reading of CSV/Excel files, widgets, progress bar, spinner, download buttons and their random keys, the report table, its sorting and CSV export. None of it decides what is downloaded or how it is named.
- The HTTP request itself, its headers and the per-request timeout: the downloader is the parameter `fetch`, a function of the URL, so the model assumes the same URL answers the same way within a run.
- ZIP encoding and DEFLATE compression: an archive is the sequence of entries written, in order. Two entries with one name stay two entries, as `ZipFile.writestr` keeps them (it only warns).
- Deduplication by ASIN (`groupby(...).first()`) and the default choice of image columns: the rows arrive already deduplicated and the columns already chosen. With `first()` pandas also skips missing values per column, which the model does not reproduce.
- The maximum batch size of 200 is a widget limit; the model only needs a batch size of at least 1.
- `math.ceil(total / batch_size)` computes with floating point; the model uses the exact integer ceiling, which agrees for fewer than 2^53 ASINs.
- Text.Lower: lower-cases ASCII letters only. For the URL check and the column names this agrees with Python: the only non-ASCII characters Python lower-cases into ASCII are the Kelvin sign (to `k`) and `İ` (to `i` plus a combining dot), and neither can produce one of the compared words (`http://`, `https://`, the null-like words, `swatch`, `main`, `image`).
- Extension.InferExt: does not model that Python's case-insensitive regex also lets `İ` (U+0130) and `ı` (U+0131) match `i` in `gif`/`tif`/`tiff`, because the model's lower-casing is ASCII-only; such a URL falls through to the content type in the model.
- Suffix.SuffixForColumn: column names are strings only. A spreadsheet header that pandas reads as a number is not a string, and `col.strip()` raises `AttributeError` on it, which ends the whole run; the model does not capture that crash.
- Suffix.SuffixForColumn: the counter is a natural number starting at 1, so `f"{n:02d}"` of negative numbers is not modelled; the source never makes the counter negative.
- BatchBuilder.BatchAttempts: a row lacking the ASIN column would raise in the source; the model requires every row to have it (`HasAsin`), and the row function gives an empty pass in the unreachable other case.
- BatchBuilder.ProcessRow and BatchBuilder.FetchAndStore are the inner loop and its body of `build_zip_for_batch`, split out as methods of their own; their combined behaviour is the one loop of the source.
- Cells hold the text `str()` would render for them; how pandas renders floats, dates or NaN is not modelled beyond the null-like words.
- File names are not sanitised or disambiguated, as in the source: BatchBuilder.SwatchColumnsCollide shows two swatch columns of one row writing the same file name.
