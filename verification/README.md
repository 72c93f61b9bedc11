# audio2corpus preprocessor — a Dafny model

audio2corpus converts recordings to 16 kHz WAV and cuts long recordings into
parts before transcription. This project models the logic of that
preprocessor that does not depend on the audio libraries:

- **segmentation** (`split_audio`): cutting an audio buffer into consecutive
  windows of `segment_length` milliseconds;
- **the split decision and part naming** in `convert_audio`: when to split, with
  what segment length, and which path each part (or the whole file) is
  exported to;
- **the supported-extension filter** in `batch_convert_directory`.

Audio is a sequence indexed by millisecond (`seq<T>`). `len(audio)` is its
length, and the slice `audio[start:end]` is the subsequence
`audio[start..end]`. Decoding, resampling and writing files are left out.
Only their inputs and outputs appear, as sequences and `Export(path, audio)`
records.

Modules:

- `Segmenter` (segmenter.dfy): `SplitAudio`, the predicate `IsSplit` saying
  what a correct split is, and lemmas on count, contiguity, lengths,
  per-millisecond ownership and reconstruction by concatenation.
- `PartNaming` (naming.dfy): the `{i:02d}` field, `{base}_part{i:02d}.wav`,
  and a parser that reads the part number back.
- `AudioFormats` (formats.dfy): `IsSupported` and `SelectSupported`, with an
  independent "extension after the last dot" characterisation.
- `Preprocessor` (preprocessor.dfy): `ShouldSplit` and `ConvertAudio`, which
  lists the exports `convert_audio` performs.
- `Wrappers` (wrappers.dfy): `Option` and `Result`.

Behaviour of the code that the model keeps:

- A segment length of 0 makes Python's `range` raise `ValueError`. With
  `max_duration == 0`, any non-empty file is therefore a failure: the
  function's `try/except` returns `False`.
- A negative segment length gives an empty `range`. With a negative
  `max_duration`, every file is "split" into no parts at all, and
  `convert_audio` returns `True` without writing anything.
- Audio of exactly `max_duration` seconds is not split.

## Model

| member | source | states |
|---|---|---|
| `Segmenter.SplitAudio` | audio2corpus/preprocessor.py:31-43 | a zero segment length fails (ValueError from range); a negative one yields no segments; a positive L yields exactly the split `IsSplit` describes: ceil(n/L) segments, the k-th being `audio[k*L .. min(k*L+L, n)]` |
| `Segmenter.SplitFrom` | audio2corpus/preprocessor.py:36-41 | the loop from a given start takes ceil((n - start)/L) windows, none once start has reached n |
| `Segmenter.SplitFromWindow` | audio2corpus/preprocessor.py:36-40 | the k-th window taken from `start` begins at start + k*L, inside the audio, and ends at min(start + k*L + L, n) |
| `Segmenter.CeilDiv` | audio2corpus/preprocessor.py:36 | the number of range steps is the least q with q*L >= n |
| `Segmenter.SplitCount` | audio2corpus/preprocessor.py:36 | no segments iff the audio is empty; the segments cover n and one fewer would not |
| `Segmenter.SpanAt` | audio2corpus/preprocessor.py:36-38 | each window is non-empty and inside [0, n); it ends where the next starts, with length L; the last ends at n |
| `Segmenter.SpanOrder` | audio2corpus/preprocessor.py:36-38 | an earlier window ends no later than a later one starts, and starts strictly earlier |
| `Segmenter.SplitSpans` | audio2corpus/preprocessor.py:36-41 | the segments of a split are the windows laid end to end from 0 to n: first starts at 0, each ends where the next starts, last ends at n, starts strictly increasing, no overlap |
| `Segmenter.SplitLengths` | audio2corpus/preprocessor.py:28-38 | every segment but the last is exactly L long; the last is in (0, L], and shorter than L iff L does not divide n |
| `Segmenter.LastLength` | audio2corpus/preprocessor.py:28-38 | the last window's length n - (ceil(n/L) - 1)*L is at most L, and below L iff n mod L != 0 |
| `Segmenter.SplitOwner` | audio2corpus/preprocessor.py:36-40 | every millisecond t lies in exactly one segment, the (t div L)-th, which holds audio[t] at offset t - (t div L)*L |
| `Segmenter.SplitPrefix` | audio2corpus/preprocessor.py:36-41 | the first j segments concatenate to the first min(j*L, n) milliseconds of the audio |
| `Segmenter.SplitReconstructs` | audio2corpus/preprocessor.py:36-43 | concatenating the segments in order gives back the audio exactly, and their lengths sum to n |
| `PartNaming.Decimal` | audio2corpus/preprocessor.py:104 | the decimal numeral of i is all digits with no leading zero: one digit iff i < 10, at most two iff i < 100 |
| `PartNaming.DecimalRoundTrip` | audio2corpus/preprocessor.py:104 | parsing the numeral of i gives back i |
| `PartNaming.ZeroPad2` | audio2corpus/preprocessor.py:104 | `{i:02d}` is a digit string of length at least 2 that parses to i, padded only up to width 2 (a leading '0' exactly when i < 10), and longer than 2 only when i >= 100 |
| `PartNaming.PartName` | audio2corpus/preprocessor.py:102-104 | the part path starts with the base and ends with ".wav", and its length is that of the base, "_part", the padded number and ".wav" together; that the middle is "_part" followed by the padded number is what `PartIndexRoundTrip` recovers |
| `PartNaming.PartIndexRoundTrip` | audio2corpus/preprocessor.py:102-104 | the part number is read back out of the part path unchanged |
| `PartNaming.PartNamesDistinct` | audio2corpus/preprocessor.py:102-105 | distinct part numbers give distinct paths, so no part overwrites another |
| `PartNaming.PartNameExamples` | audio2corpus/preprocessor.py:103-104 | parts 1, 12 and 100 of "talk" are talk_part01.wav, talk_part12.wav and talk_part100.wav |
| `AudioFormats.Lower` | audio2corpus/preprocessor.py:153 | the lower-cased name has the same length, contains no capital letter, has each capital replaced by its small letter and every other character unchanged |
| `AudioFormats.LowerIdempotent` | audio2corpus/preprocessor.py:153 | lower-casing an already lower-cased name changes nothing |
| `AudioFormats.AnyEndsWith` | audio2corpus/preprocessor.py:153 | `any(name.endswith(fmt) for fmt in formats)` holds iff some listed format is a suffix of the name |
| `AudioFormats.FormatShape` | audio2corpus/preprocessor.py:148 | each of the seven formats is a '.' followed by a dot-free audio extension |
| `AudioFormats.FormatIndex` | audio2corpus/preprocessor.py:148 | every audio extension appears, dot-prefixed, in the format list |
| `AudioFormats.IsSupportedIffExtension` | audio2corpus/preprocessor.py:148-153 | a name is accepted iff the lower-cased text after its last dot is one of mp3, wav, ogg, flac, m4a, wma, aac |
| `AudioFormats.IsSupportedCaseInsensitive` | audio2corpus/preprocessor.py:153 | names that lower-case alike are accepted alike |
| `AudioFormats.AcceptsUpperCase` | audio2corpus/preprocessor.py:153 | "X.MP3" is accepted |
| `AudioFormats.RejectsTrailingText` | audio2corpus/preprocessor.py:153 | "x.mp3.txt" is rejected |
| `AudioFormats.SelectSupported` | audio2corpus/preprocessor.py:151-158 | the entries passed on to convert_audio are exactly the accepted ones in the listing, each as often as it is listed |
| `AudioFormats.SelectSupportedAppend` | audio2corpus/preprocessor.py:151-158 | selection keeps listing order: selecting from a concatenation of listings is concatenating the selections |
| `AudioFormats.SelectSupportedOne` | audio2corpus/preprocessor.py:151-153 | a single entry is kept iff it is accepted (with the previous row, this fixes the selection, order included) |
| `Preprocessor.ShouldSplitInSeconds` | audio2corpus/preprocessor.py:84-88 | comparing whole milliseconds with max_duration * 1000 is the same as comparing the duration in seconds with max_duration |
| `Preprocessor.ShouldSplitBoundary` | audio2corpus/preprocessor.py:88 | audio of exactly max_duration seconds is not split; one millisecond more is |
| `Preprocessor.SplitYieldsAtLeastTwo` | audio2corpus/preprocessor.py:88-91 | when splitting is decided with max_duration > 0, the split has at least two segments |
| `Preprocessor.PartExports` | audio2corpus/preprocessor.py:102-105 | the segments are exported unchanged and in order; the part number read back from the k-th export's path is k + 1; no two exports share a path |
| `Preprocessor.DefaultWholePathAsWrittenFails` | audio2corpus/preprocessor.py:109-111 | as written, the default output path of a short file is always refused by pathlib |
| `Preprocessor.DefaultWholePath` | audio2corpus/preprocessor.py:109-111 | the corrected default path (the input's stem followed by "_16khz.wav") starts with the stem and is never a part path of that stem, so a whole export cannot land on a part's file |
| `Preprocessor.ConvertAudio` | audio2corpus/preprocessor.py:84-112 | (with the corrected default path of the finding) short audio goes whole to one path; otherwise max_duration == 0 fails, negative yields nothing, positive yields at least two exports that form the split of the audio into max_duration*1000 ms windows, named part 1, 2, …; every successful non-negative run's exports concatenate back to the audio; no two exports share a path |
| `Preprocessor.ConvertAudioAsWrittenDiffers` | audio2corpus/preprocessor.py:65-120 | convert_audio as written differs from the corrected model exactly on short files without output_path, where it fails on the refused suffix "_16khz.wav" while the corrected model exports the file |
| `Preprocessor.FortyFiveSecondsExample` | audio2corpus/preprocessor.py:88-105 | 45 s with a 30 s limit gives two parts, [0, 30 s) as _part01.wav and [30 s, 45 s) as _part02.wav |
| `Preprocessor.TenSecondsExample` | audio2corpus/preprocessor.py:107-112 | in the corrected model, 10 s with a 30 s limit is exported whole, to the input's stem plus "_16khz.wav" |
| `Preprocessor.TenSecondsAsWrittenFails` | audio2corpus/preprocessor.py:107-120 | as written, the same 10 s call with no output_path fails on the refused suffix and exports nothing |

## Findings

| source | as written | input that shows it | evidently intended | confidence | as-written member | corrected member |
|---|---|---|---|---|---|---|
| audio2corpus/preprocessor.py:111 | `Path(input_path).with_suffix('_16khz.wav')` | a 10 s `talk.mp3` converted without `output_path`. pathlib raises ValueError ("Invalid suffix") because the suffix does not start with '.'. `convert_audio` then returns `False` and writes nothing. | `talk_16khz.wav` beside the input | high, not executed | `Preprocessor.ConvertAudioAsWrittenDiffers` | `Preprocessor.DefaultWholePath` |

`ConvertAudioAsWritten` models `convert_audio` as written, including this failure; `DefaultWholePathAsWrittenFails` and `TenSecondsAsWrittenFails` exhibit it. `ConvertAudio` uses the corrected `DefaultWholePath`.

## Left out

- Decoding (`AudioSegment.from_file`), resampling (`set_frame_rate`) and `export` are calls into pydub/ffmpeg, and their behaviour is not visible. Audio is the already-resampled millisecond sequence. The sample-rate comparison that decides whether to resample is not modelled.
- The `print` logging is left out. So is the catch-all `try/except`, apart from the failures the modelled logic raises itself: a zero segment length (in `ConvertAudio` and `ConvertAudioAsWritten`), and the refused suffix of the finding (in `ConvertAudioAsWritten` only).
- Preprocessor.ConvertAudio: models the corrected default output path, so a short file without output_path succeeds there; the code as written fails on it, which `ConvertAudioAsWritten` and `ConvertAudioAsWrittenDiffers` state.
- Preprocessor.TenSecondsExample: states the corrected behaviour; the as-written outcome of the same call is `TenSecondsAsWrittenFails`.
- The duration is compared in integer milliseconds (`len_ms > max_duration * 1000`) rather than as the float `len(audio) / 1000`. `max_duration` is an integer. A fractional `max_duration` would make `range` raise `TypeError`; that case is not modelled.
- AudioFormats.Lower: folds only ASCII `A`–`Z`, whereas Python's `str.lower` folds every cased character. The other foldings produce characters outside the seven extensions, so they do not change what `IsSupported` accepts.
- pathlib and `os.path` semantics are taken as given inputs: the suffix-stripped paths `inputStem` and `Destination.stem`, `Path(filename).stem` and `os.path.join`. `Preprocessor.WithSuffix` models only pathlib's suffix check and the append onto an already stripped stem; in particular a stem that still contains a dot is not stripped again. It does not model the error on a path with an empty name.
- `os.listdir` and `os.makedirs` are filesystem effects. The directory listing is an input, in whatever order it arrives.
- The per-file call in `batch_convert_directory` is modelled only as far as choosing which files are converted (`SelectSupported`). The output paths are built with `os.path.join`.
- api/fast.py is left out. It is HTTP handling and temporary-file writes, and its transcription step is commented out.
