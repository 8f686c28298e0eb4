# Text-to-speech web application: a verified model of its core

The application is a Flask front end with Celery workers. It turns text into
speech through a remote voice provider and keeps one JSON metadata file per
finished task. It offers:

- a single-text form (`home`);
- a batch form that cuts a text into items (`batch_processing`) and a task
  that runs them one by one (`process_batch`);
- a retried synthesis task (`async_synthesize_and_save`) and three polling
  endpoints;
- per-user voice presets;
- a dashboard of past tasks, newest first, and an analytics page that counts
  them;
- a post-processing task (`advanced_audio_processing`) that applies audio
  effects and exports the result under a name made by replacing `.mp3` in
  the input's name with `_processed.mp3` (for a name without `.mp3`, the
  input's own name).

This project models the decisions these make on strings, lists and dicts,
and proves what they promise. One module per concern:

| module | file | what it models |
|---|---|---|
| `Wrappers` | wrappers.dfy | `Option`, with `GetOr` for `dict.get(key, default)` |
| `Text` | text.dfy | Python's `str.strip`, `split`, `join`, `replace`, `startswith`, `endswith` and `<=` on `str` |
| `Files` | files.dfy | POSIX `os.path.join`, `safe_filename`, the metadata file path |
| `Submit` | submit.dfy | blank-text rejection in `home`; the delimiter policy of `batch_processing` |
| `Batch` | batch.dfy | the `process_batch` loop |
| `Retry` | retry.dfy | the synthesis task's retry countdown |
| `Status` | status.dfy | the three status endpoints |
| `Presets` | presets.dfy | the preset store: list, save, delete, use |
| `Metadata` | metadata.dfy | the metadata record; loading the `.json` files of the metadata directory |
| `History` | history.dfy | the dashboard's stable newest-first sort |
| `Analytics` | analytics.dfy | per-format counts and character totals |
| `Effects` | effects.dfy | the effect pipeline, the form's effect dict, the output name, the retry |

Python's `dict` is modelled by insertion order: an association list with
distinct keys (`Analytics.FormatCount` list, `Effects.EffectsDict`), or a
Dafny `map` where order does not show (`Presets.PresetStore.presets`).

## Model

| member | source | states |
|---|---|---|
| Text.Strip | app.py:171 | the result has no whitespace at either end (Python's `str.isspace` set) and is a contiguous slice of the input with only whitespace around it |
| Text.StripUnique | app.py:453 | any slice with only whitespace around it and none at its ends is the result of `Strip`, so the result is determined |
| Text.StripIdempotent | app.py:181 | stripping a stripped string changes nothing |
| Text.StripEmptyIff | app.py:460 | the stripped string is empty exactly when the input is all whitespace |
| Text.SplitJoin | app.py:181 | joining the pieces of `split(sep)` with `sep` gives the original string back |
| Text.SplitPiecesHaveNoSeparator | app.py:186 | no piece of `split(sep)` contains `sep` |
| Text.SplitLeftmost | app.py:186 | `split(sep)` cuts left to right: no occurrence of `sep` starts inside a piece and runs into the separator after it |
| Text.SplitNoSeparator | app.py:186 | a string without `sep` splits into itself alone |
| Text.SplitAtCut | app.py:186 | cutting at an occurrence with none before it gives the text before it as the first piece, followed by the split of the rest |
| Text.SplitUnique | app.py:186 | `split(sep)` is the only list of pieces that joins back to the string, holds no `sep`, and is cut at leftmost occurrences |
| Text.ReplaceIsSplitJoin | app.py:298 | `replace(old, new)` equals `new.join(s.split(old))`: every non-overlapping occurrence, left to right, is replaced |
| Text.ReplaceAbsent | app.py:298 | a string in which the target does not occur is returned unchanged |
| Text.LessOrEqualTotal | app.py:85 | Python's order on `str` relates any two strings |
| Text.LessOrEqualAntisymmetric | app.py:85 | two strings that are each `<=` the other are equal |
| Text.LessOrEqualTransitive | app.py:85 | the order on `str` is transitive |
| Text.AtMostEmptyIsEmpty | app.py:85 | only the empty string is `<=` the empty string, which is what a missing timestamp sorts as |
| Files.Take | app.py:360 | `s[:n]` has at most `n` characters and is a prefix of `s`; it has exactly `n` when `s` is long enough, and is `s` itself when `s` is shorter |
| Files.SafeFilename | app.py:358-362 | the path starts with `output_audio/` exactly when the prefix is not an absolute path, and it ends in `.ext`; it is `output_audio/<prefix>_<timestamp>_<first 8 uuid digits>.<ext>` for a relative prefix, and `<prefix>_<timestamp>_<first 8 uuid digits>.<ext>` for an absolute one |
| Files.OutputJoinInjective | app.py:362 | two names of the same kind (both relative or both absolute) joined onto `output_audio` give the same path only if they are equal |
| Files.FileNameDistinct | app.py:362 | equal file names from timestamps of one width have equal timestamps and equal kept uuid digits |
| Files.SafeFilenameDistinct | app.py:358-362 | with the same prefix and extension, equal names mean equal timestamps and equal kept uuid digits |
| Files.MetadataFileName | app.py:415 | `<task id>.json`: the task id followed by `.json` |
| Files.MetadataPath | app.py:415 | the metadata path is `tasks_metadata/<id>.json` for a relative task id and `<id>.json` for an absolute one; it ends in `.json`, and starts with `tasks_metadata/` exactly in the relative case |
| Files.MetadataPathInjective | app.py:312 | two task ids get the same metadata path only if the ids are equal |
| Submit.Home | app.py:453-463 | the form is rejected with "Please enter some text." exactly when the `lyrics` field (empty when missing) is all whitespace; otherwise the stripped text, non-empty, is queued |
| Submit.NonBlank | app.py:181 | the kept strings are non-empty members of the input, no more of them than the input has |
| Submit.StrippedNonEmpty | app.py:181 | every item of the comprehension is non-empty and stripped |
| Submit.KeptPositions | app.py:181 | the kept positions are increasing positions of the pieces, one per item |
| Submit.KeptItems | app.py:181 | the `k`-th kept string is the one at the `k`-th kept position |
| Submit.KeptCovers | app.py:181 | every non-empty string is kept |
| Submit.StrippedNonEmptyKeepsOrder | app.py:181 | item `k` is the stripped piece at the `k`-th kept position, the positions increase, and every non-blank piece is kept |
| Submit.SplitBatch | app.py:171-188 | under `paragraph`, `line` or `custom` every item is non-empty and stripped; under any other choice the stripped text is the single item, even when empty |
| Submit.BatchItemsAreSegments | app.py:179-186 | under a separator the segments join back to the stripped text, no segment contains the separator, every cut is at the leftmost occurrence, and the items are exactly the non-blank segments, stripped, in order |
| Batch.ProcessBatch | app.py:149-163 | one entry per input text, in order; entry `i` carries `text_list[i]` and the file name when call `i` returned, its error when it raised; a failure does not stop later items |
| Batch.FailuresAreCounted | app.py:152-163 | the number of failed entries equals the number of calls that raised |
| Retry.Pow2 | app.py:424 | `2 ** n` is at least one |
| Retry.Countdown | app.py:424 | the countdown is between 5 and 60 seconds |
| Retry.Pow2Monotone | app.py:424 | `2 ** n` grows with `n` |
| Retry.CountdownMonotone | app.py:424 | later retries never wait less |
| Retry.CountdownValues | app.py:424 | the countdowns are 5, 10, 20 and 40 seconds for retries 0 to 3, and 60 from then on |
| Retry.CapUnusedWithinMaxRetries | app.py:365 | with at most three retries, the 60-second cap never applies |
| Retry.TotalDelayBounded | app.py:424 | `n` retries wait between `5n` and `60n` seconds altogether |
| Retry.TotalDelayAtMaxRetries | app.py:365 | the three allowed retries wait 35 seconds altogether |
| Status.Poll | app.py:209-214 | `SUCCESS` and `FAILURE` are reported as such and every other state as `PENDING`; a result field appears exactly in `SUCCESS` and holds the task's result |
| Status.BatchStatus | app.py:204-214 | the batch entries are shown under `results`, and only on success |
| Status.ProcessingStatus | app.py:339-349 | the processed file's name is shown under `result`, and only on success |
| Status.TaskStatus | app.py:474-481 | the synthesized file's name is shown under `result`, and only on success |
| Status.EndpointsAgree | app.py:474-481 | the three endpoints report the same status for a state: `SUCCESS` or `FAILURE` exactly in those states, `PENDING` in every other |
| Presets.WithoutIdMeaning | app.py:127-128 | after deletion the list holds exactly the presets whose id differs, and is no longer |
| Presets.WithoutIdAppend | app.py:128 | deletion works preset by preset, so it distributes over list concatenation |
| Presets.WithoutAbsentId | app.py:128 | deleting an id no preset has leaves the list unchanged |
| Presets.DeleteIdempotent | app.py:125-130 | deleting twice is deleting once |
| Presets.FirstWithIdMeaning | app.py:139 | `None` exactly when no preset has the id; otherwise the preset at the first index holding it |
| Presets.FirstWithIdAppend | app.py:117 | a newly saved preset is found only when no earlier one has its id |
| Presets.FirstWithIdAfterDelete | app.py:125-139 | deleting one id does not change which preset another id finds |
| Presets.DeletedIdIsNotFound | app.py:125-139 | a deleted id is not found afterwards |
| Presets.FirstWithIdSkips | app.py:139 | the first preset holding the id is the one found |
| Presets.PresetStore.constructor | app.py:91 | the store starts with no user |
| Presets.PresetStore.List | app.py:96-98 | the user's list (empty when new) is shown, and a new user gets an empty entry |
| Presets.PresetStore.Save | app.py:100-118 | the new preset is appended to the user's list, emotion `neutral` when missing; no other user changes |
| Presets.PresetStore.Delete | app.py:124-130 | a known user's list loses exactly the presets with the id; an unknown user leaves the store unchanged |
| Presets.PresetStore.Find | app.py:133-139 | the first of the user's presets with the id, or none; the store is not changed |
| Metadata.LoadedMeaning | app.py:75-82 | every loaded record comes from a `.json` entry that parsed, and every such entry is loaded |
| Metadata.LoadRecords | app.py:219-228 | the loop loads what `Loaded` describes, in directory order |
| History.InsertMembers | app.py:85 | inserting adds exactly that record: the multiset grows by it |
| History.InsertKeepsOrder | app.py:85 | inserting into a newest-first list keeps it newest first and adds exactly that record |
| History.InsertHeadStaysFirst | app.py:85 | when the record goes behind the head, the result is still newest first |
| History.InsertWithKey | app.py:85 | an inserted record goes before records with its timestamp that were already there |
| History.WithKeyAppend | app.py:85 | the records with one timestamp, taken from a concatenation, are those of each part in turn |
| History.SortNewestFirstSorts | app.py:85 | the sorted list is newest first and a permutation of the input |
| History.SortNewestFirstStable | app.py:85 | records with equal timestamps keep their relative order |
| History.MissingTimestampsLast | app.py:85 | after a record without a timestamp come only records whose timestamp is the empty string or missing |
| History.Dashboard | app.py:72-87 | the dashboard lists the loaded records newest first, as a permutation that keeps equal timestamps in load order |
| Analytics.BumpShape | app.py:242 | counting one more task of a format increments that format's count, appends it with count one when new, and leaves the other counts |
| Analytics.BumpSum | app.py:242 | counting one more task raises the sum of the counts by one |
| Analytics.BumpDistinct | app.py:242 | counting one more task keeps one entry per format |
| Analytics.BumpCounts | app.py:240-242 | counting one more task keeps every count equal to its format's tally |
| Analytics.BumpCovers | app.py:240-242 | after counting one more task every task's format is listed |
| Analytics.BumpTally | app.py:240-245 | one loop step keeps the counts equal to the per-format tallies of the tasks seen |
| Analytics.Analyze | app.py:230-263 | no data exactly when there are no tasks; otherwise the task total, counts that sum to it, one entry per format, each equal to that format's tally (missing format counted as `unknown`) and at least one, a format listed exactly when some task has it, and the total text length |
| Analytics.CountedFormatOccurs | app.py:240-242 | a format counted at least once is the format of some task |
| Analytics.BumpPositive | app.py:242 | counting one more task leaves every listed count at least one |
| Analytics.CountAbsent | app.py:241-242 | a format no task has is counted zero times |
| Effects.PipelineOrdered | app.py:273-296 | at most five steps, each effect at most once, in the order volume, fade-in, fade-out, speed, normalise |
| Effects.PipelineSteps | app.py:273-296 | each effect runs exactly when its key is present, with that key's value; normalisation runs exactly when its value is truthy |
| Effects.LookupMeaning | app.py:274-275 | with distinct keys a lookup finds a value exactly when that item is in the dict, and nothing exactly when no item has the key |
| Effects.LookupKeyOrder | app.py:274-295 | two dicts with the same items look up every key alike |
| Effects.PipelineKeyOrder | app.py:268-296 | the same effects in any key order give the same pipeline |
| Effects.FormEffects | app.py:320-328 | the dict a form builds never holds a key twice |
| Effects.FormPipeline | app.py:320-331 | a form always runs gain and both fades; speed, when filled in, runs before normalisation although its key is added last |
| Effects.ProcessedName | app.py:298 | the output name as written: every `.mp3` replaced with `_processed.mp3` |
| Effects.ProcessedNameUnchanged | app.py:298 | a name without `.mp3` is its own output name |
| Effects.WavNameNoMp3 | app.py:358-362 | a wav name made by `safe_filename` contains `.mp3` only if its prefix, timestamp or uuid digits do |
| Effects.WavOutputOverwritesInput | app.py:298-299 | a wav file made by `safe_filename` from a relative voice id, timestamp and uuid without `.mp3` in them ends in `.wav` and is its own output name |
| Effects.DerivedName | app.py:298 | the intended output name ends in `_processed.mp3` and always differs from the input; for an `.mp3` input it is the input's stem followed by `_processed.mp3` |
| Effects.DerivedNameAgrees | app.py:298 | for a name whose only `.mp3` is its extension, the intended name and the name as written agree |
| Effects.Process | app.py:268-306 | when the file can be processed, the steps are `Pipeline(effects)` and the result is exported under the name as written, `ProcessedName` of the input; otherwise no step runs and a retry is scheduled in 5 seconds |

## Left out

- HTTP handling is not modelled: routing, templates, redirects, login and the user table.
- The voice provider's API, `get_voices` and its cache, and the text-to-speech request are not modelled. The synthesis outcome is a parameter of `Batch.ProcessBatch`, and the decodability of a file is a parameter of `Effects.Process`.
- Audio decoding, the effect implementations and export are not modelled: they are floating-point signal processing inside a library. Effects are tags (`Effects.Step`).
- Celery, Redis and Socket.IO are not modelled: queueing, the result backend's state machine, the `task_queued` event, and the enforcement of `max_retries` by the worker. `Retry` models the countdown and the bound as numbers.
- Filesystem I/O is reduced to data: a directory listing is a sequence of `Metadata.DirEntry`, where an entry whose file could not be read or parsed has no contents. Writing the metadata file and the exported audio is not modelled. Neither is the `metrics` and `serve_audio` file serving.
- The clock and `uuid4` are parameters of `Files.SafeFilename` and `Presets.PresetStore.Save`.
- Floating-point arithmetic is not modelled: the analytics averages (`avg_duration`, `avg_chars`, `round`), and the `float`/`int` parsing of form fields. Form numbers enter as `real` values.
- JSON values of unexpected types (a non-string `timestamp` or `format` in a metadata file) are not modelled: record fields are optional strings.
- Analytics.Analyze: the report's format entries are in first-appearance order, as in the source's dict; the contract states the counts and their distinctness but not that order.
- History.Dashboard: Python sorts the list in place; the model sorts a sequence with a stable insertion sort specified as a function, not in place.
- Submit.SplitBatch: requires a non-empty separator. Python raises `ValueError` on an empty custom delimiter, and the route does not catch it.
- Files.MetadataPathInjective: the lemma is about distinct task ids. The id a task runs under is Celery's and is not modelled. `process_batch` calls `async_synthesize_and_save` directly (app.py:155), not through `.delay`. Under Celery's behaviour such a call gets no fresh id of its own, so the items of one batch need not get distinct metadata files.
- The `tasks.py` worker module and the definition order of the application module are not modelled.

## Findings

| source | as written | input that shows it | evidently intended | confidence | as-written member | corrected member |
|---|---|---|---|---|---|---|
| app.py:298-299 | the output name is `audio_filename.replace(".mp3", "_processed.mp3")`, which leaves a name without `.mp3` unchanged; the export then overwrites the original file with mp3 data | `output_audio/v1_20240101_120000_abcdef01.wav`, made by `safe_filename` for `audio_format="wav"` | a new file whose name ends in `_processed.mp3`, always different from the input | medium, not executed | Effects.WavOutputOverwritesInput | Effects.DerivedName |
