# SEC filing downloader: ticker parsing, start guard and download loop

The Streamlit app downloads SEC filings for a list of tickers and a set of
form types (10-K, 10-Q, 8-K) and converts every HTML document it finds to a
text file named `TICKER_FORM.txt`. This project models the app's own logic
and proves its properties:

- **Ticker list** (`Tickers`, built on `Text`): the comma-separated text area
  is split on `,`, each segment is stripped and upper-cased, and segments
  that are blank after stripping are dropped.
- **Start guard** (`Guard`): pressing the start button is rejected when the
  email is empty or contains `domain.com` anywhere, and otherwise when the
  ticker list is empty. The email is checked first.
- **Download loop** (`Orchestration`): every (ticker, form) pair in
  ticker-major order. Each pair counts a step for the progress bar, requests
  the filing, and writes each HTML document found to the pair's file, so a
  later document overwrites an earlier one. Each converted document appends
  the file name to `results_log`. An exception in a pair is reported and the
  loop goes on. A pair that converted nothing and raised nothing gets a
  "no data" warning.
- **Button handler** (`App`): the three pieces above, put together.

`DownloadAll` and `VisitPair` are imperative methods with while loops. Their
postconditions tie the final state to the functional specification `RunAll`
/ `ProcessPair`. The lemmas state the loop's promises about that
specification: order, counting, progress bounds, overwrite, results log,
warnings and errors.

External parts are parameters:
- the download client plus the walk over the downloaded folders is a
  `Fetcher`. Given the 1-based step and the pair, it returns the HTML
  documents in walk order, and the exception that ended the pair, if any;
- HTML-to-text extraction is an uninterpreted `Converter`;
- the output directory is a map from file name to text. It starts empty,
  which is the state right after the directory reset;
- messages shown to the user are a log of `Message` values.

## Model

| member | source | states |
|---|---|---|
| Text.SkipSpaces | streamlit_app.py:37 | the first non-whitespace index at or after `i`; everything skipped is whitespace |
| Text.SkipSpacesBack | streamlit_app.py:37 | the end of the slice once trailing whitespace is dropped; everything dropped is whitespace |
| Text.Strip | streamlit_app.py:37 | `str.strip()` never lengthens a string |
| Text.StripSpec | streamlit_app.py:37 | the stripped string has no whitespace at either end and is a slice of the input with only whitespace outside it |
| Text.StripStripped | streamlit_app.py:37 | stripping a string with no whitespace at either end leaves it unchanged |
| Text.StripAllSpace | streamlit_app.py:37 | a whitespace-only string strips to the empty string, so its segment is dropped |
| Text.Upper | streamlit_app.py:37 | ASCII upper-casing keeps the length |
| Text.UpperSpec | streamlit_app.py:37 | no lower-case letter remains; each lower-case letter becomes the upper-case letter at the same place in the alphabet; nothing else changes; whitespace and commas are kept |
| Text.UpperNoLower | streamlit_app.py:37 | upper-casing fixes a string with no lower-case letter |
| Text.Split | streamlit_app.py:37 | `split(",")` gives one more segment than there are commas, none of them containing a comma |
| Text.SplitAppend | streamlit_app.py:37 | splitting `a + sep + b` splits `a` and `b` independently |
| Text.SplitNoSep | streamlit_app.py:37 | a comma-free string is a single segment |
| Text.SplitJoin | streamlit_app.py:37 | joining the segments of a split gives back the text |
| Text.JoinSplit | streamlit_app.py:37 | splitting the join of a non-empty list of separator-free segments, empty segments allowed, gives the list back |
| Text.ContainsIff | streamlit_app.py:41 | the substring test `p in s` holds exactly when `p` occurs at some index of `s` |
| Text.ContainsInfix | streamlit_app.py:41 | a string with `p` anywhere in it contains `p` |
| Tickers.Clean | streamlit_app.py:37 | one segment contributes at most one ticker |
| Tickers.CleanWellFormed | streamlit_app.py:37 | a comma-free segment yields only well-formed tickers |
| Tickers.Normalise | streamlit_app.py:37 | the comprehension yields at most one ticker per segment |
| Tickers.NormaliseWellFormedOutput | streamlit_app.py:37 | every ticker from comma-free segments is non-empty, stripped, upper-case and comma-free |
| Tickers.ParseTickers | streamlit_app.py:37 | `ticker_list` has at most (commas + 1) entries, each non-empty, without whitespace at either end, without lower-case letters and without commas |
| Tickers.NormaliseAppend | streamlit_app.py:37 | segments are normalised independently and their order is kept |
| Tickers.ParseTickersConcat | streamlit_app.py:37 | the tickers of `x + "," + y` are those of `x` followed by those of `y` |
| Tickers.ParseTickersSegment | streamlit_app.py:37 | a comma-free text gives its stripped upper-cased form, or nothing when it is blank |
| Tickers.ParseTickersBlank | streamlit_app.py:37 | a whitespace-only segment gives no ticker |
| Tickers.NormaliseWellFormed | streamlit_app.py:37 | well-formed tickers pass through normalisation unchanged |
| Tickers.ParseTickersIdempotent | streamlit_app.py:37 | parsing the comma-joined ticker list again gives the same list |
| Tickers.ParseTickersDropsBlank | streamlit_app.py:37 | a blank segment between two commas (`"A, ,B"`) is dropped |
| Tickers.ParseTickersTrailingComma | streamlit_app.py:37 | a trailing comma adds no ticker |
| Tickers.ParseTickersKeepsDuplicates | streamlit_app.py:37 | duplicates are not removed: the text given twice yields twice as many tickers |
| Guard.Check | streamlit_app.py:41-45 | the run proceeds only with a non-empty email and a non-empty ticker list |
| Guard.CheckProceeds | streamlit_app.py:41-45 | the run proceeds if and only if the email is non-empty, `domain.com` occurs nowhere in it and the ticker list is non-empty |
| Guard.EmailCheckedFirst | streamlit_app.py:41-44 | a bad email is reported as such even when the ticker list is also empty |
| Guard.PlaceholderAnywhereRejected | streamlit_app.py:41-42 | `domain.com` anywhere in the email, as in `x@mydomain.com`, rejects the run |
| Guard.NoTickersRejected | streamlit_app.py:43-44 | with an acceptable email, the run is rejected for the ticker list exactly when it is empty |
| Orchestration.Repeat | streamlit_app.py:95-96 | `n` copies of the same line or file name |
| Orchestration.VisitPair | streamlit_app.py:64-103 | one pair's body: step count, progress, request, every document written to the pair's file in turn, then an error or a "no data" warning; the result is `ProcessPair` |
| Orchestration.DownloadAll | streamlit_app.py:55-103 | the nested loops end in the state `RunAll` describes |
| Orchestration.PairsAppend | streamlit_app.py:62-63 | enumerating a concatenation of ticker lists enumerates each in turn |
| Orchestration.PairsLength | streamlit_app.py:55 | the loop visits `len(ticker_list) * len(user_forms)` pairs |
| Orchestration.PairsPrefix | streamlit_app.py:62-63 | the first `i + 1` tickers' pairs are the first `i` tickers' pairs then ticker `i`'s row |
| Orchestration.PairsTickers | streamlit_app.py:62-63 | every pair combines a listed ticker with a selected form |
| Orchestration.RowPrefix | streamlit_app.py:63 | within a row, forms are visited in the order of the form list |
| Orchestration.RowStep | streamlit_app.py:62-64 | visiting the next form of a row is one more step of the loop |
| Orchestration.PairsAt | streamlit_app.py:62-63 | pair number `i * len(forms) + j` is ticker `i` with form `j` (ticker-major, form-minor) |
| Orchestration.RunPairsShape | streamlit_app.py:64-72 | after `n` pairs, `step_count` is `n` and exactly those pairs were requested, in order |
| Orchestration.RunPairsSnoc | streamlit_app.py:62-103 | one more pair extends the run by that pair's body |
| Orchestration.RunAllVisitsEveryPair | streamlit_app.py:55-72 | every pair is requested, even when downloads raise, and `step_count` ends at `total_steps` |
| Orchestration.NoFormsNoWork | streamlit_app.py:63 | with no form selected nothing is requested, written or logged |
| Orchestration.RunPairsLog | streamlit_app.py:66-103 | the last pair's lines come after those of all earlier pairs |
| Orchestration.ProgressBounded | streamlit_app.py:64-66 | every progress update shows `step / total` with `1 <= step <= number of pairs <= total` |
| Orchestration.RunAllProgressBounded | streamlit_app.py:55-66 | every progress update of the whole loop has `1 <= step_count <= total_steps`, so it never divides by zero |
| Orchestration.PairLogClosing | streamlit_app.py:99-103 | a warning or error among a pair's lines can only be its closing line |
| Orchestration.EmptySplit | streamlit_app.py:77-100 | an empty visit of a pair is among the earlier visits or is the last one |
| Orchestration.RaisedSplit | streamlit_app.py:102-103 | a visit that raised is among the earlier visits or is the last one |
| Orchestration.NoDataWarnings | streamlit_app.py:77-100 | a pair gets the "no data" warning exactly when some visit of it converted nothing and raised nothing |
| Orchestration.FailuresReported | streamlit_app.py:70-103 | an error for a pair is reported exactly for the visits that raised it, and later pairs still run |
| Orchestration.RunPairsOutputs | streamlit_app.py:89-93 | the last pair's documents are written to its file on top of the earlier output directory |
| Orchestration.WritesPrefix | streamlit_app.py:89-93 | dropping the last pair changes neither which earlier pairs write a file nor what they write |
| Orchestration.FileWritten | streamlit_app.py:89-93 | a file exists exactly when some pair with that file name converted a document |
| Orchestration.LastWriteWins | streamlit_app.py:89-93 | a file holds the text of the last document of the last pair writing it; duplicate tickers collapse onto one file |
| Orchestration.RunPairsResults | streamlit_app.py:96 | each pair appends its file name to `results_log` once per converted document |
| Orchestration.ResultsCount | streamlit_app.py:96 | `results_log` has one entry per converted document, not one per pair |
| Orchestration.ResultsNameOutputs | streamlit_app.py:89-96 | `results_log` names exactly the files in the output directory |
| Orchestration.LastUnderscore | streamlit_app.py:89 | with an underscore-free form, the `_` before it is the last underscore of the name stem |
| Orchestration.OutputNameInjective | streamlit_app.py:89 | with underscore-free forms, equal file names mean the same (ticker, form) pair |
| Orchestration.SelectableFormsHaveNoUnderscore | streamlit_app.py:34 | none of the selectable forms contains an underscore |
| App.OnStart | streamlit_app.py:37-103 | a rejection comes exactly from a bad email (reported first) or an empty ticker list, before anything is downloaded; otherwise the run is `RunAll` over the parsed tickers, requesting every pair and ending at `total_steps` |
| App.RequestedTickersWellFormed | streamlit_app.py:37-72 | every download request carries a non-empty, stripped, upper-case, comma-free ticker |

## Left out

- The Streamlit UI (title, sidebar widgets, status box, progress bar, success message, download button) is left out. The lines the loop writes are kept as a `Message` log.
- The progress value `step_count / total_steps` is a float; only its numerator and denominator are kept.
- The SEC download client and the walk over the downloaded folders (`Path.exists`, `iterdir`, `is_dir`, `glob`) are network and filesystem I/O. They are a `Fetcher` parameter that yields the documents in walk order, plus the exception that ended the pair, if any.
- BeautifulSoup parsing and `get_text` are a foreign HTML library, modelled as an uninterpreted `Converter`.
- `clear_output_directory` and `zip_output_directory` are filesystem operations. The output directory starts as an empty map, which is the state after the reset. The zip archive and its download are not modelled.
- Orchestration.VisitPair: an exception raised while a document's output file is being written is treated like one raised before that document. The truncated, partly written file is not modelled.
- An exception raised by lines 64-68 (the step count, the progress update and the "Fetching" line run before the inner `try`), or one not derived from `Exception` such as `KeyboardInterrupt`, ends the whole run through the outer handler at lines 121-122 or the runtime, and the remaining pairs are not processed. The model assumes no such exception occurs.
- Text.Strip: only ASCII whitespace is stripped, namely the ASCII set Python's `str.isspace` accepts. Unicode whitespace is not covered.
- Text.Upper: only ASCII letters are upper-cased. Non-ASCII case mapping is not covered.
