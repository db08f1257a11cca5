# Audio transcription batch tool, modelled in Dafny

`audio_to_text_file.py` transcribes every new recording in a directory and
writes one transcript per recording. This project models its decision logic
and proves what that logic promises. There are three pieces:

- **`sanitize_filename`** (`sanitize.dfy`, with `paths.dfy` for `os.path`). A
  pure string function:
  - split off the extension with `os.path.splitext`;
  - lower-case the base;
  - turn every character outside `[a-z0-9_-]` into `-`;
  - collapse runs of `-`;
  - strip `-` from both ends;
  - put the extension back unchanged.

  The model is a chain of functions over `seq<char>`. The proofs cover:
  - the cleanliness of the result;
  - the preserved extension;
  - when the base vanishes;
  - equality with an independent one-pass reference (`Squeeze`);
  - exactly when sanitizing is idempotent.
- **`get_audio_files_status`** (`workset.dfy`). The loop over the directory
  listing becomes the method `ScanDirectory`. It works over a snapshot of the
  directory:
  - the listing, in `os.listdir` order, with each entry's `isfile` flag;
  - the set of paths on which `os.path.exists` holds.

  The method is proved equal to the specification functions `Pending` and
  `Excluded`. Those are in-order selections (`Sequences.Select`), and the
  lemmas about them give:
  - the filter and the classification, both directions;
  - the ordered partition;
  - no duplicates.
- **The gate, loop and header of `main`** (`batch.dfy`):
  - `Run` models lines 74-132: the early exit, the y/N prompt, model loading, and the loop.
  - `ProcessFiles` models the per-file `try` loop.
  - `WriteTranscript` models the `with open(...)` block.

  The disk is a `FileStore` class whose `files` map the methods update in
  place. The speech engine and the disk's failures are oracles in `Env`:
  - `transcribe(i, path, language)`: engine segments, or a raised message.
  - `sink(i)`: what happens to the output file opened by attempt `i`: every
    write lands, `open` raises, or an exception inside the `with` block
    leaves only the first `kept` characters.

  In the source, `model.transcribe` runs before `open`. So an engine failure
  never touches the disk, while a write failure can leave a partial file.
  Because the work set is computed once, two recordings whose names sanitize
  to the same transcript are both scheduled, and the later write wins.

`wrappers.dfy` holds `Option`. `sequences.dfy` holds generic sequence facts:
- the ordered-partition predicate `Interleaves`;
- `Distinct`;
- `Firsts`;
- the in-order selection `Select`, which models a list comprehension with a filter.

## Model

| member | source | states |
|---|---|---|
| Paths.SplitExt | audio_to_text_file.py:13-14 | base followed by extension is the input, and the extension is empty or a single leading dot with no other dot and no separator |
| Paths.SplitNamed | audio_to_text_file.py:13-14 | a name made of a stem that starts with no dot and has no separator, followed by an extension, splits into exactly that stem and extension |
| Paths.SplitExtAppend | audio_to_text_file.py:41-42 | splitting `b + ext` gives `(b, ext)` exactly when the last component of `b` has a character other than a dot; otherwise nothing is split off |
| Paths.BasenameOfJoin | audio_to_text_file.py:120 | the basename of `join(dir, name)` is `name` for a name without separators |
| Paths.JoinInjective | audio_to_text_file.py:33 | joining two relative names onto one directory gives one path only when the names are equal |
| Paths.Join | audio_to_text_file.py:33 | `os.path.join(a, b)`: no ensures of its own; `BasenameOfJoin` and `JoinInjective` state what the program relies on |
| Paths.Basename | audio_to_text_file.py:120 | `os.path.basename(p)`: no ensures of its own; `BasenameOfJoin` states that it undoes `Join` |
| Sanitizer.Lower | audio_to_text_file.py:17 | ASCII `str.lower()`, used here and at lines 37 and 84: no ensures of its own; `CleanBaseEmptyIff`, `ConfirmationIff` and `AudioPathsMembership` state what the program gets from it |
| Sanitizer.ReplaceDisallowed | audio_to_text_file.py:19 | `re.sub(r'[^a-z0-9-_]', '-', s)`: no ensures of its own; `CleanBaseIsClean` and `CleanBaseIsOnePass` state its effect within the chain |
| Sanitizer.StripDashes | audio_to_text_file.py:23 | `s.strip('-')`: no ensures of its own; `StripLeading` and `StripTrailing` state each half, and `CleanBaseIsClean` the result |
| Sanitizer.CleanBase | audio_to_text_file.py:17-23 | the lower-case, substitute, collapse and strip chain: no ensures of its own; `CleanBaseIsClean`, `CleanBaseIsOnePass`, `CleanBaseEmptyIff` and `CleanBaseFixesClean` state what it promises |
| Sanitizer.SanitizeFilename | audio_to_text_file.py:11-25 | `sanitize_filename`: no ensures of its own; `SanitizeFilenameShape`, `SanitizedHasNoSeparator` and `SanitizeIdempotentIff` state what it promises |
| Sanitizer.CollapseDashes | audio_to_text_file.py:21 | the result is no longer than the input, keeps its first character, uses only allowed characters when the input does, and holds no two adjacent dashes |
| Sanitizer.CollapseKeepsWords | audio_to_text_file.py:21 | collapsing removes dashes only: the characters other than `-` are those of the input, in order (where the remaining dashes sit is pinned, together with the strip, by `CleanBaseIsOnePass`) |
| Sanitizer.StripLeading | audio_to_text_file.py:23 | only leading dashes are removed, the rest is a suffix of the input and does not start with a dash |
| Sanitizer.StripTrailing | audio_to_text_file.py:23 | only trailing dashes are removed, the rest is a prefix of the input and does not end with a dash |
| Sanitizer.CleanBaseIsClean | audio_to_text_file.py:17-23 | the sanitized base uses only `[a-z0-9_-]`, has no `--`, and neither starts nor ends with `-` |
| Sanitizer.SanitizeFilenameShape | audio_to_text_file.py:11-25 | the result is a clean base followed by the input's own extension, unchanged (case included), which is empty or a dot-led suffix of the input |
| Sanitizer.SanitizedHasNoSeparator | audio_to_text_file.py:11-25 | a sanitized name never holds `/`, so joining it onto the directory stays in the directory |
| Sanitizer.CleanBaseEmptyIff | audio_to_text_file.py:17-23 | the sanitized base is empty exactly when no character of the base lower-cases into `[a-z0-9_]` |
| Sanitizer.CleanBaseIsOnePass | audio_to_text_file.py:19-23 | the substitution, collapse and strip equal the one-pass reference that emits words and one dash between two words |
| Sanitizer.CleanBaseFixesClean | audio_to_text_file.py:17-23 | a base that is already clean is left exactly as it is |
| Sanitizer.SanitizeIdempotentIff | audio_to_text_file.py:11-25 | sanitizing twice equals sanitizing once exactly when the sanitized base is non-empty or there is no extension |
| Sanitizer.IdempotentOnSurvivingBase | audio_to_text_file.py:11-25 | a result whose sanitized base is non-empty is left unchanged by a second pass, whatever its extension |
| Sanitizer.LoseDot | audio_to_text_file.py:13-25 | a bare extension such as ".txt" is not split, and sanitizing it changes it |
| Sanitizer.IdempotenceCounterexample | audio_to_text_file.py:11-25 | "!!!.txt" sanitizes to ".txt", and ".txt" sanitizes to "txt" |
| WorkSet.IsAudio | audio_to_text_file.py:34-39 | a regular file whose lower-cased `splitext` extension is one of the five audio extensions: no ensures of its own; `AudioPathsMembership` and `ScanFilter` state the filter |
| WorkSet.TranscriptName | audio_to_text_file.py:41-43 | the predicted transcript name: no ensures of its own; `TranscriptNameOf` and `AudioTranscriptName` state what it is |
| WorkSet.IsTranscribed | audio_to_text_file.py:42-45 | `os.path.exists` of the predicted transcript path: no ensures of its own; `PendingMembership` and `ExcludedMembership` state how it classifies |
| WorkSet.Pending | audio_to_text_file.py:32-48 | `to_process` as a selection over the listing: no ensures of its own; `PendingMembership`, `ScanIsOrderedPartition` and `ScanDistinct` state what it holds |
| WorkSet.Excluded | audio_to_text_file.py:32-48 | `excluded` as a selection over the listing: no ensures of its own; `ExcludedMembership`, `ScanIsOrderedPartition` and `ScanDistinct` state what it holds |
| WorkSet.ScanDirectory | audio_to_text_file.py:27-50 | the loop's two lists are `Pending` and `Excluded` of the listing |
| WorkSet.ScanStep | audio_to_text_file.py:32-48 | a further listing entry appends at most its own path to the list it belongs in and leaves the other list alone |
| WorkSet.ScanIsOrderedPartition | audio_to_text_file.py:32-48 | the audio paths, in listing order, are a merge of `to_process` and the excluded paths: each lands in exactly one list, and both keep listing order |
| WorkSet.AudioPathsMembership | audio_to_text_file.py:32-39 | a path is an audio path iff some listed regular file with a supported lower-cased extension is joined onto the directory to give it |
| WorkSet.PendingMembership | audio_to_text_file.py:41-48 | a path is to be processed iff it is such an audio file whose sanitized ".txt" name does not exist in the directory |
| WorkSet.ExcludedMembership | audio_to_text_file.py:41-46 | a pair is excluded iff its path is such an audio file whose transcript exists, and its reason is the fixed message |
| WorkSet.ScanFilter | audio_to_text_file.py:32-48 | a path is in one of the two results iff it is a regular file with a supported extension |
| WorkSet.ScanDistinct | audio_to_text_file.py:32-48 | on a listing of distinct names without separators, neither list repeats a path and no path is in both |
| WorkSet.TranscriptNameOf | audio_to_text_file.py:41-43 | for any name with a non-empty extension, hidden names included, the predicted transcript name is the cleaned base followed by ".txt": the appended ".txt" is split off again and kept verbatim |
| WorkSet.AudioTranscriptName | audio_to_text_file.py:37-43 | every audio file has an extension, so its transcript name is its cleaned base followed by ".txt" |
| WorkSet.HiddenRecording | audio_to_text_file.py:32-43 | the hidden file ".memo.mp3" is an audio file, and its transcript is predicted as "memo.txt" |
| WorkSet.ExampleScan | audio_to_text_file.py:27-50 | in "/d" with "A B.mp3", "C 1.wav" and "c-1.txt", only "/d/A B.mp3" is scheduled; "/d/C 1.wav" is excluded with the fixed reason |
| Batch.Equals | audio_to_text_file.py:119 | `'=' * n`: no ensures of its own; `TranscriptLayout` states that `RULE` is 50 `=` |
| Batch.SegmentLines | audio_to_text_file.py:122-127 | the lines of the `for segment` loop: no ensures of its own; `TranscriptLayout`, `WriteTranscript` and `ProcessedTranscript` state what is written |
| Batch.SegmentLine | audio_to_text_file.py:123-126 | the f-string of one segment line, with the timestamps already formatted: no ensures of its own; `TranscriptLayout` and `ProcessedTranscript` state where these lines go |
| Batch.HeaderLines | audio_to_text_file.py:119-121 | the three header writes: no ensures of its own; `TranscriptLayout` states the header's text and `HeaderName` the name in it |
| Batch.TranscriptLines | audio_to_text_file.py:119-127 | every `f.write` of one transcript, in order: no ensures of its own; `TranscriptLayout`, `WriteTranscript` and `ProcessedTranscript` state what they put on disk |
| Batch.TranscriptLayout | audio_to_text_file.py:118-127 | a transcript is 50 `=`, `filename:` with the name, 50 `=`, each on its own line, then the segment lines |
| Batch.StoreAfterWrite | audio_to_text_file.py:118-127 | the store after the `with` block: no ensures of its own; `WriteOutcome`, `PartialWrite` and `WriteTranscript` state what it holds |
| Batch.WriteError | audio_to_text_file.py:118-127 | the exception the `with` block raises, if any: no ensures of its own; `WriteOutcome` and `WriteTranscript` state when it is raised |
| Batch.WriteOutcome | audio_to_text_file.py:118-127 | a failed `open` leaves the store alone; otherwise the path holds a prefix of the content, all of it when nothing raised; other paths are unchanged |
| Batch.FileStore.Open | audio_to_text_file.py:118 | `open(path, 'w')` leaves the path empty and every other path as it was |
| Batch.FileStore.Append | audio_to_text_file.py:119 | a write appends its text to the open file and changes nothing else |
| Batch.PartialWrite | audio_to_text_file.py:119-127 | a write cut off inside line `i` leaves exactly the first `kept` characters of the whole transcript |
| Batch.WriteTranscript | audio_to_text_file.py:118-127 | the store ends as `StoreAfterWrite` says, and the raised message, if any, is returned |
| Batch.OutputPath | audio_to_text_file.py:108-110 | the output path of one recording: no ensures of its own; `HeaderName` and `OutputMatchesScan` state what it is |
| Batch.Attempt | audio_to_text_file.py:106-132 | the outcome of one `try` block, with the engine called before `open`: no ensures of its own; `ProcessedMembership` and `FailuresMembership` state what it decides |
| Batch.AttemptStore | audio_to_text_file.py:106-129 | the store after one `try` block: no ensures of its own; `UntouchedPaths`, `LastWriteWins` and `ProcessedTranscript` state what it holds |
| Batch.Processed | audio_to_text_file.py:104-129 | `processed_files` after the loop: no ensures of its own; `LoopOutcome`, `LoopDistinct` and `ProcessedMembership` state what it holds |
| Batch.Failures | audio_to_text_file.py:104-132 | `failed_files` after the loop: no ensures of its own; `LoopOutcome`, `LoopDistinct` and `FailuresMembership` state what it holds |
| Batch.StoreAfter | audio_to_text_file.py:104-129 | the store after the loop: no ensures of its own; `UntouchedPaths`, `LastWriteWins` and `ProcessedTranscript` state what it holds |
| Batch.ProcessFiles | audio_to_text_file.py:100-132 | the loop's lists and the final store are `Processed`, `Failures` and `StoreAfter` of the work set |
| Batch.LoopOutcome | audio_to_text_file.py:104-132 | every scheduled file ends in exactly one of `processed_files` and `failed_files`, each in work-set order |
| Batch.LoopDistinct | audio_to_text_file.py:104-132 | a work set without repeats splits into two disjoint lists without repeats whose lengths add up to the work set's |
| Batch.ProcessedMembership | audio_to_text_file.py:106-129 | a file is processed iff its attempt transcribed it and nothing in the write raised |
| Batch.FailuresMembership | audio_to_text_file.py:130-132 | `(file, m)` is recorded iff the attempt on the file raised `m`, in the engine or in the write, while later files are still attempted |
| Batch.UntouchedPaths | audio_to_text_file.py:104-132 | a path that no attempt opens, because the engine failed first or `open` raised or it is not the output path, keeps what it had |
| Batch.LastWriteWins | audio_to_text_file.py:114-129 | the last attempt that opens an output path decides its content: a prefix of that transcript, and all of it when the attempt succeeded |
| Batch.HeaderName | audio_to_text_file.py:108-120 | the header names the output file by its own basename, the sanitized base with ".txt" |
| Batch.OutputMatchesScan | audio_to_text_file.py:108-110 | the loop writes to exactly the path whose existence the scan checked |
| Batch.ProcessedTranscript | audio_to_text_file.py:108-127 | a processed file that no later attempt overwrites holds the fixed header naming its transcript, then one line per segment |
| Batch.ConfirmationIff | audio_to_text_file.py:84-85 | an answer lower-cases to "y" exactly when it is "y" or "Y" |
| Batch.Proceeds | audio_to_text_file.py:83-87 | the run goes on iff `--accept` is given or the answer is "y" or "Y" |
| Batch.Run | audio_to_text_file.py:74-132 | per ending: unlistable directory crashes; empty work set returns before prompt, load and any write; EOF at the prompt crashes; a refusal cancels with nothing written; a load failure crashes before any write; otherwise the loop's lists and store as `ProcessFiles` gives them |
| Batch.CollisionLaterWins | audio_to_text_file.py:104-127 | two scheduled files with one output path that both succeed are both processed, the file holds the later transcript, and so no longer holds the earlier one when the two differ |
| Batch.ExampleCollision | audio_to_text_file.py:75-118 | "A.mp3" and "a.wav" in an empty "/d" are both scheduled and both written to "/d/a.txt" |

## Left out

- Only a POSIX run is modelled: `posixpath` with the separator `/`, and text-mode writes that store `"\n"` unchanged. On Windows the separator `\` and drive letters are not modelled, and `open(output_path, 'w', encoding='utf-8')` (line 118) would store every `"\n"` of lines 119-127 as `"\r\n"`, so the file contents that `TranscriptLayout`, `LastWriteWins` and `ProcessedTranscript` state hold only on a POSIX run.
- `str.lower()` is modelled as ASCII lower-casing (`Sanitizer.LowerChar`). A few non-ASCII characters lower-case to ASCII letters in Python; the Kelvin sign and U+0130 are examples. The model does not capture those.
- Console output is not modelled: `print_file_status` (lines 52-65), the progress prints and the final summary (lines 134-156). It is UI only. A print that raises (an encoding error, say) is not modelled either, except inside the `with` block, where `FailsAfter` covers any exception.
- `argparse` and `os.path.abspath` are CLI plumbing (lines 67-74). `Run` takes the absolute directory and the `--accept` flag as parameters; the `--language` value reaches it as `env.language`, a field of its `env: Env` parameter.
- Whisper and torch are foreign library calls. This covers CUDA detection, `whisper.load_model` and the transcription itself (lines 89-98, 114). The engine is the oracle `Env.transcribe`. A model-loading failure is the `loadFailure` parameter of `Run`.
- The `:.2f` formatting of `start` and `end` (line 126) is floating point. Timestamps are kept as already-formatted strings.
- `KeyboardInterrupt`, and any other `BaseException` that the per-file `except Exception` does not catch, is not modelled.
- `input()` is the `answer` parameter of `Run`, and `None` stands for end of input. The EOF message is fixed as the one `EOFError` carries.
- The real filesystem is not modelled:
  - `os.listdir`, `isfile` and `exists` are a snapshot taken once.
  - The existence set is separate from the `FileStore` that the loop writes. The scan runs before any write, so the two never need to agree during a run.
  - Races with other writers are out of scope.
  - The listing order is whatever the snapshot holds, because the platform defines it.
- Disk failures are tied to the attempt number (`Env.sink(i)`), not to the path. A buffered write that raises at some point is modelled as keeping a prefix of the content. How much of that prefix reaches the disk is the oracle's choice.
- Batch.FailuresMembership: the message recorded is whatever the engine or the disk raised. `str(e)` can be empty in Python, so the model does not promise a non-empty message.
