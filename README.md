# Classify: a Dafny model of the upload checks, the classifier page and its statistics

Classify is a web front end for a music-genre classifier. A user picks an
audio file, the page posts it to a Flask endpoint that runs a neural network,
shows the predicted genre with a confidence percentage, and keeps a history of
past classifications in the browser's `localStorage`, summarised by a small
statistics panel.

This project models the three parts of that system that hold logic:

- `App` (app.dfy): the back end's label map `genres`, the extension filter
  `allowed_file`, and the ordered checks at the start of `predict_audio`
  (which field holds the file, empty name, allowed extension) that decide
  between a 400 answer and writing a temporary file with a given suffix.
- `IndexPage` (index_page.dfy): the classifier page as a class whose fields
  are the component's state (`selectedFile`, `isProcessing`, `predictedGenre`,
  `confidence`, `fileSize`, `history`) and whose methods are its handlers and
  effects. The `localStorage` slot is a separate `Storage` object, so a
  reload is a new `Page` mounted on the same storage. The network answer is
  an input (`Response`), so one classification attempt is one step.
- `StatsCard` (stats_card.dfy): the statistics derived from the history:
  the per-genre tally (a JavaScript object, modelled as an insertion-ordered
  map `Tally`), the total, the most common genre (first entry after a stable
  sort by descending count) and the number of distinct genres.

Helper modules: `Wrappers` (an `Option` type), `Ascii` (ASCII upper- and
lower-casing), `History` (the `Classification` record).

## Model

| member | source | states |
|---|---|---|
| `App.GenresBijective` | backend/src/app.py:13-16 | `genres` has ten distinct labels mapped one-to-one onto exactly the indices 0..9 |
| `App.Extension` | backend/src/app.py:35 | `rsplit('.', 1)[1]`: absent iff the name has no `.`; otherwise the text after the last `.`, which holds no `.`, and the name is what precedes it plus `.` plus it |
| `App.AllowedFile` | backend/src/app.py:33-34 | a name without any `.` is never allowed |
| `App.AllowedFileMeansLastDotExtension` | backend/src/app.py:33-35 | allowed iff some `.` of the name has no `.` after it and the text after it, lower-cased, is one of `wav, mp3, flac, ogg, m4a, aac` |
| `App.AllowedFileIgnoresCase` | backend/src/app.py:35 | lower-casing the whole name never changes the verdict: the extension check is case-insensitive |
| `App.TrailingDotRejected` | backend/src/app.py:35 | a name ending in `.` has an empty extension and is rejected |
| `App.AllowedFileExamples` | backend/src/app.py:28-35 | `a.tar.WAV` and `track.mp3` are allowed; `wav.txt`, `song.` and `wav` are not |
| `App.SelectUpload` | backend/src/app.py:78-83 | the `audio` field wins over `file`; nothing is selected iff neither is present |
| `App.TempSuffix` | backend/src/app.py:96 | the suffix is `.` followed by the extension's length in dot-free characters; `TempSuffixIsAllowedExtension` ties it to the accepted extension |
| `App.CheckUpload` | backend/src/app.py:76-96 | the checks in order: no field gives "no audio provided"; otherwise an empty name gives "no file selected" before the extension is looked at; otherwise a refused extension gives "unsupported type"; only a request passing all of them goes on to the temporary file, with the selected upload; every rejection is a 400 answer |
| `App.TempSuffixIsAllowedExtension` | backend/src/app.py:96 | the temporary file's suffix is `.` plus an allowed extension with no further `.`, and equals the name's tail from its last `.` on, lower-cased |
| `IndexPage.IsAudioType` | frontend/src/pages/Index.tsx:48 | a media type is accepted iff its first six characters are `audio/` |
| `IndexPage.Capitalize` | frontend/src/pages/Index.tsx:138 | same length; first character upper-cased, the rest unchanged; empty stays empty |
| `IndexPage.CapitalizeIdempotent` | frontend/src/pages/Index.tsx:138 | capitalising a displayed genre again changes nothing |
| `IndexPage.CapitalizeOnlyChangesCase` | frontend/src/pages/Index.tsx:138 | capitalising and then lower-casing equals lower-casing: only case changes |
| `IndexPage.DisplayedLabelsLowerToBackendLabels` | frontend/src/pages/Index.tsx:135-138 | every label the back end can report, once capitalised for display, lower-cases back to that label |
| `IndexPage.Page.Mount` | frontend/src/pages/Index.tsx:23-38 | initial state: no file, no prediction, confidence 0, empty size text; the history is the saved slot's content when present, else empty |
| `IndexPage.Page.SaveHistoryEffect` | frontend/src/pages/Index.tsx:41-45 | the slot is overwritten with the whole history when it is non-empty; an empty history leaves the slot as it was |
| `IndexPage.Page.HandleFileSelect` | frontend/src/pages/Index.tsx:47-62 | a media type not starting with `audio/` changes no field; otherwise the file is selected, the prediction cleared, confidence 0, the size text set, history untouched |
| `IndexPage.Page.ClearFile` | frontend/src/pages/Index.tsx:70-79 | ends with no file, no prediction, confidence 0, empty size text; history untouched |
| `IndexPage.Page.ClassifyAnother` | frontend/src/pages/Index.tsx:81-86 | the same reset as `ClearFile`; history untouched |
| `IndexPage.Page.ClassifyGenre` | frontend/src/pages/Index.tsx:110-172 | without a file nothing changes; on a prediction the capitalised genre and percentage are shown and a record with them and the file's name is put in front of the old history; on an HTTP error, `success: false` or a thrown error, no prediction, confidence 0, history unchanged; never left processing; with the attempt taken as one atomic step, the page invariant (a shown prediction is the newest record, of the selected file) is kept |
| `IndexPage.ReloadRestoresHistory` | frontend/src/pages/Index.tsx:33-45 | after the save effect, a page mounted again on the same storage has the same non-empty history |
| `StatsCard.GenreCounts` | frontend/src/components/StatsCard.tsx:16-19 | the tally's keys are distinct and are exactly the genres that occur; each key's count is its number of occurrences in the history |
| `StatsCard.Total` | frontend/src/components/StatsCard.tsx:13 | `totalClassifications` equals the sum of the genre counts (see `CountsSumToTotal`) |
| `StatsCard.CountsSumToTotal` | frontend/src/components/StatsCard.tsx:13-19 | the counts add up to `totalClassifications`, the history's length |
| `StatsCard.KeysInFirstOccurrenceOrder` | frontend/src/components/StatsCard.tsx:16-19 | the tally's keys are in the order of their genres' first occurrence in the history |
| `StatsCard.SortByCountDesc` | frontend/src/components/StatsCard.tsx:21 | the sort yields a permutation of the entries in descending count order |
| `StatsCard.SortHeadIsFirstMaximum` | frontend/src/components/StatsCard.tsx:21 | the first entry after the stable sort is the earliest entry of largest count |
| `StatsCard.MostCommonGenre` | frontend/src/components/StatsCard.tsx:21 | a chosen genre is always a key of the tally; maximality and tie-break in `MostCommonIsMaximal` and `MostCommonTieBreak` |
| `StatsCard.MostCommonAbsentIffEmpty` | frontend/src/components/StatsCard.tsx:21-44 | there is no most common genre ("N/A") iff the history is empty |
| `StatsCard.MostCommonIsMaximal` | frontend/src/components/StatsCard.tsx:21 | the most common genre occurs, and no genre occurs more often |
| `StatsCard.MostCommonTieBreak` | frontend/src/components/StatsCard.tsx:16-21 | among genres with the top count, the chosen one first occurs earliest in the history; index 0 is the newest record, so ties go to the genre classified most recently |
| `StatsCard.UniqueGenreCount` | frontend/src/components/StatsCard.tsx:56 | the unique-genre figure never exceeds the number of records; exact value in `UniqueGenreCountIsDistinctGenres` |
| `StatsCard.UniqueGenreCountIsDistinctGenres` | frontend/src/components/StatsCard.tsx:56 | the unique-genre figure is the number of distinct genres in the history, and is 0 iff the history is empty |
| `StatsCard.RockRockJazzScenario` | frontend/src/components/StatsCard.tsx:16-56 | a history of one Jazz and two Rock records tallies to {Jazz: 1, Rock: 2}, has Rock as most common and two unique genres |

## Left out

- Network and storage I/O: `fetch`, `FormData` and `response.json()` are replaced by the `Response` input; `localStorage` is the `Storage` object, and JSON encoding is taken as the identity.
- Malformed saved data: the load effect calls `JSON.parse` without a guard, so malformed data makes the page fail; the model does not describe that case and claims no fallback to an empty history.
- Floating point: the percentage `Math.round(confidence * 100)` is an integer input and is not clamped to 0..100, as the code does not clamp it; the `toFixed(2)` size text is the `megabytes` input.
- `Date.now()`: the record's `id` and `timestamp` are inputs; nothing makes ids unique, and the model claims no uniqueness.
- Unicode case mapping: `toUpperCase` and Python's `lower` are modelled on ASCII letters only; other characters are left unchanged.
- Asynchrony: `classifyGenre` is one atomic step; the in-between state with `isProcessing` true is not observable in the model, and concurrent attempts are not modelled. Nor are handlers that run while a request is in flight: the "Clear File" button, the file input and the drop zone stay live then, so the page can end with a prediction shown and no file selected, or another file selected, while the record keeps the name of the file sent. The last part of `IndexPage.Page.Valid` (a shown prediction is the newest record, of the selected file) holds only under the atomic reading.
- `IndexPage.Page.SaveHistoryEffect`: React runs it after every render in which `history` changed; the model offers it as a step and does not force it after each change.
- Presentation: rendering, toast notices and their texts, the `isDragging` flag and the drag and file-input handlers (which only pass the first file on to `handleFileSelect`), and the history list of src/components/ClassificationHistory.tsx.
- The `GENRES` list at frontend/src/pages/Index.tsx:12 is not used by any of the modelled code.
- Back end beyond the checks: the JSON error texts, the 50 MB request limit (an oversized body fails on the first access to `request.files` inside the handler's `try`, and is answered by the catch-all 500 with `success: false`), the catch-all 500 answer in general, writing and deleting the temporary file, `secure_filename`, `predict_genre` and the neural network, the health endpoint, the command-line `main` and backend/run.py.
- `StatsCard.GenreCounts`: the tally is a plain map, while the source's `{}` accumulator inherits from `Object.prototype`; a genre named like one of its members (`constructor`, `toString`, `__proto__`) would be miscounted or dropped there. The model assumes genre labels are never such names; the ten capitalised labels are not.
- `StatsCard.KeysInFirstOccurrenceOrder`: JavaScript orders integer-like object keys (such as `"42"`) numerically before the others; the model assumes genre labels are never integer-like.
- `StatsCard.SortByCountDesc`: stability of the sort is stated only through the head of its result (`StatsCard.SortHeadIsFirstMaximum`), the only element the panel uses.
