# Video subtitling and podcast handlers — a Dafny model

This project models the two Next.js API handlers of the video-subtitling application:

- **`processVideo`** takes an uploaded video and an OpenAI key. It extracts the audio with ffmpeg,
  transcribes it with Whisper, and translates every non-blank segment into Japanese. It
  serialises the translations as a SubRip (`.srt`) file: cues numbered from 1, a 500 ms minimum
  display time, and `HH:MM:SS,mmm` timestamps from the `formatTime` helper. It then burns the
  subtitles into the video, or copies the streams when the subtitle file is blank. It replies
  with the mp4 and deletes its four working files.
- **`generatePodcast`** validates three form fields and downloads a YouTube video into a fresh
  `yt-` directory. It extracts and transcribes the audio and builds a transcript from the
  non-empty segment texts. It has a script generated from the transcript, voices it, and writes
  `podcast.mp3`. It replies with a base64 data URI. In its `finally` block it deletes every
  registered temporary file and then the directory.

The model is written in plain functions over immutable data:

- JavaScript's semantics are written out. This covers `Math.floor`, the truncating `%`, `String`,
  `padStart`, ECMAScript `trim`, truthiness, `path.join` of a directory and a plain name,
  POSIX `path.dirname`, `existsSync`, `unlinkSync` and `rmdirSync`.
- The file system is a set of files and a set of directories.
- Every external tool or service is a parameter. This covers ffmpeg, Whisper, the chat model, the
  voice service, yt-dlp, `mkdtemp`'s random suffix, `readdirSync`'s listing and the base64
  encoder.
- A `fault` parameter says which step throws; a failing translation carries the position of the
  kept segment whose request fails. A `partial` flag says whether that step leaves a
  partly written output file behind.

Modules:

| file | module | what it holds |
|---|---|---|
| `wrappers.dfy` | `Wrappers` | `Option` |
| `js_strings.dfy` | `JsStrings` | whitespace, `trim`, `padStart`, `indexOf`/`lastIndexOf`, truthiness |
| `decimal.dfy` | `Decimal` | `String(n)` for integers and reading digit strings back |
| `srt_time.dfy` | `SrtTime` | `formatTime` and its inverse |
| `segments.dfy` | `Segments` | the Whisper segment mapping shared by both handlers |
| `srt.dfy` | `Srt` | the subtitle loop: skipping, minimum duration, numbering, layout, and a cue reader |
| `transcript.dfy` | `Transcript` | the podcast transcript loop |
| `temp_files.dfy` | `TempFiles` | the disk, the path helpers, the podcast `finally`, the video handler's deletions |
| `process_video.dfy` | `ProcessVideo` | the video handler end to end |
| `generate_podcast.dfy` | `GeneratePodcast` | the podcast handler end to end |

## Model

| member | source | states |
|---|---|---|
| `SrtTime.JsRem` | pages/api/processVideo.ts:129-131 | JavaScript `%`: it equals the mathematical remainder for a non-negative dividend, and lies in (-divisor, 0] for a negative one. In both cases the dividend minus the result is a multiple of the divisor, so the result is the remainder of division truncated toward zero |
| `SrtTime.FieldsRecompose` | pages/api/processVideo.ts:128-131 | for a non-negative time the four fields are in range (minutes and seconds below 60, milliseconds below 1000), and hours·3600000 + minutes·60000 + seconds·1000 + milliseconds gives the input back |
| `SrtTime.FormatTimeShape` | pages/api/processVideo.ts:127-133 | a rendered timestamp is digits with `:`, `:` and `,` at fixed distances from the end. Minutes and seconds take two digits and milliseconds three. Hours take at least two digits and are never capped |
| `SrtTime.ParseFormatTime` | pages/api/processVideo.ts:127-133 | reading a rendered non-negative timestamp gives back exactly the milliseconds it came from |
| `SrtTime.FormatTimeInjective` | pages/api/processVideo.ts:127-133 | two different non-negative times never render to the same text |
| `SrtTime.FormatTimeHasNoSeparators` | pages/api/processVideo.ts:132 | a rendered timestamp holds no space and no line break, so it cannot break the cue layout |
| `SrtTime.FormatTimeOneAndAHalfSeconds` | pages/api/processVideo.ts:132 | 1500 ms renders as `00:00:01,500` |
| `SrtTime.FormatTimeHundredHours` | pages/api/processVideo.ts:128 | 100 hours renders as `100:00:00,000`, because the hours field is not capped at two digits |
| `SrtTime.FormatTimeMinusOne` | pages/api/processVideo.ts:128-132 | a negative time is not clamped: −1 ms renders as `-1:-1:-1,0-1` |
| `Decimal.DecimalRoundTrip` | pages/api/processVideo.ts:132 | `String(n)` of a natural number reads back as `n` |
| `JsStrings.PadStartSpec` | pages/api/processVideo.ts:132 | `padStart` result: the length is max(width, \|s\|), it ends with `s`, and everything in front of `s` is the fill character |
| `JsStrings.TrimEmptyIffBlank` | pages/api/processVideo.ts:138 | `trim()` gives the empty string exactly when the text is all whitespace |
| `JsStrings.TrimSpec` | pages/api/processVideo.ts:76 | `trim()` returns a contiguous slice with only whitespace cut on either side; a non-empty result starts and ends with a non-whitespace character |
| `JsStrings.TrimIdempotent` | pages/api/generatePodcast.ts:91 | trimming an already trimmed text changes nothing |
| `Segments.TranscribedTexts` | pages/api/generatePodcast.ts:88-92 | after the segment mapping the timing is unchanged, each text is already trimmed, and a text is empty exactly when the service returned a blank one |
| `Srt.EffectiveEnd` | pages/api/processVideo.ts:144-146 | a cue lasts at least 500 ms. It keeps the segment's own end when the segment lasts 500 ms or more, and otherwise ends exactly 500 ms after the start. The start is never moved |
| `Srt.KeptSelection` | pages/api/processVideo.ts:136-138 | the segments that get a cue are exactly the non-blank ones, taken in strictly increasing input order; none is reordered, duplicated or lost |
| `Srt.KeptAppend` | pages/api/processVideo.ts:136-138 | the segments kept from a concatenation are the concatenation of the segments kept from each part |
| `Srt.CuesFollowInput` | pages/api/processVideo.ts:136-149 | cue k has number k+1 and comes from the k-th non-blank segment. It keeps that segment's start and carries the translation of its text. Its duration is at least 500 ms, and exactly the segment's own duration when that is 500 ms or more |
| `Srt.BlankSegmentInvisible` | pages/api/processVideo.ts:138 | inserting a whitespace-only segment anywhere changes neither the kept segments, nor the file contents, nor the translation requests |
| `Srt.SerialiseWith` | pages/api/processVideo.ts:125-150 | the loop, for any timestamp printer. It writes the rendered cues of the kept segments, and the texts it sends for translation are those segments' texts, in order |
| `Srt.BuildSrt` | pages/api/processVideo.ts:125-150 | the loop with `formatTime`. It yields the SubRip contents and exactly the kept texts as translation requests. The contents are empty exactly when no translation was requested |
| `Srt.RenderCueExample` | pages/api/processVideo.ts:148 | cue 1 from 0 to 1000 ms renders as `1`, `00:00:00,000 --> 00:00:01,000`, the text, then a blank line |
| `Srt.ParseRenderCue` | pages/api/processVideo.ts:148 | every block the loop writes for non-negative times reads back as the cue it was written from, whatever the text holds |
| `Srt.StretchExample` | pages/api/processVideo.ts:144-146 | a 200 ms segment starting at 1000 gives a cue from 1000 to 1500 |
| `Srt.SkipsBlankExample` | pages/api/processVideo.ts:138 | with an empty middle segment among three, two cues are written, numbered 1 and 2 |
| `Srt.SrtBlankIffNoneKept` | pages/api/processVideo.ts:157 | the subtitle contents trim to nothing exactly when no segment was kept |
| `Transcript.BuildTranscript` | pages/api/generatePodcast.ts:201-206 | the transcript loop. It computes the transcript, which is empty exactly when every segment text is empty |
| `Transcript.TranscriptEmptyIff` | pages/api/generatePodcast.ts:201-206 | the transcript is empty exactly when every segment text is empty; otherwise it ends with the separating space |
| `Transcript.TranscriptAppend` | pages/api/generatePodcast.ts:202-206 | the transcript of a concatenation is the concatenation of the transcripts |
| `Transcript.TranscriptMatchesSubtitles` | pages/api/generatePodcast.ts:201-206 | over the service's mapped segments, the transcript is the texts the subtitle serialiser keeps, in order, each followed by one space |
| `Transcript.BlankSegmentAddsNothing` | pages/api/generatePodcast.ts:88-92 | a segment returned with a whitespace-only text leaves the transcript as if it were absent |
| `TempFiles.DirnameJoin` | pages/api/generatePodcast.ts:190-192 | the directory of a path joined from a directory and a plain name is that directory. This holds for the root and for any directory path without a trailing `/` |
| `TempFiles.DirnameExamples` | pages/api/generatePodcast.ts:192 | `path.dirname` ignores trailing separators (`a/b/` gives `a`, `/a/` gives `/`), keeps a leading `//`, gives `.` for a bare name or the empty path, and keeps a doubled inner separator (`a//b` gives `a/`) |
| `GeneratePodcast.DownloadDirIsDirPath` | pages/api/generatePodcast.ts:33 | the `yt-` directory from `mkdtemp` is a directory path with no trailing `/`, so `path.dirname` of the video in it gives it back |
| `TempFiles.Unlink` | pages/api/generatePodcast.ts:252 | `unlinkSync` succeeds exactly when the path is an existing file. Then the directories are unchanged, the path is no longer a file, and putting it back gives the original files, so no other file is touched. A consistent disk stays consistent and the path no longer exists |
| `TempFiles.Rmdir` | pages/api/generatePodcast.ts:256 | `rmdirSync` succeeds exactly when the path is an existing directory that holds nothing. Then the files are unchanged, the path is no longer a directory, and putting it back gives the original directories, so no other directory is touched. A consistent disk stays consistent, the path no longer exists and nothing is left inside it |
| `TempFiles.UnlinkExistingSpec` | pages/api/generatePodcast.ts:250-254 | the deletion walk throws exactly when a registered path is a directory. Otherwise it removes exactly the registered files and no directory |
| `TempFiles.UnlinkExistingFrame` | pages/api/generatePodcast.ts:250-254 | whatever the disk holds, the walk touches no directory and deletes only registered paths |
| `TempFiles.CleanupSpec` | pages/api/generatePodcast.ts:247-261 | after the `finally`, no registered path exists and no other file has gone. The registered directory is removed exactly when it was set, existed, and held nothing else |
| `TempFiles.CleanupFrame` | pages/api/generatePodcast.ts:247-261 | the `finally` deletes nothing but registered files and the registered directory |
| `TempFiles.UnlinkInOrderAll` | pages/api/processVideo.ts:173-177 | consecutive `unlinkSync` calls on distinct existing files delete exactly those files and nothing else, without throwing |
| `TempFiles.UnlinkInOrderStops` | pages/api/processVideo.ts:173-180 | when the k-th deletion is the first to fail, the earlier files are gone and the later ones remain |
| `ProcessVideo.Handle` | pages/api/processVideo.ts:96-110 | 405 exactly for a non-POST request. 400 exactly for a parsed POST without an upload or with a falsy key. No reply other than 200 deletes anything |
| `ProcessVideo.SuccessPath` | pages/api/processVideo.ts:113-180 | a completed run replies 200 with the mp4 headers and wrote the serialised subtitles. It asked for one translation per kept segment, in order. Afterwards its four working files are gone and nothing else changed |
| `ProcessVideo.CommandChoice` | pages/api/processVideo.ts:156-162 | stream copy is chosen exactly when no segment was kept; otherwise the command burns in the `.srt` file |
| `ProcessVideo.TranslateFaultNeedsKeptSegment` | pages/api/processVideo.ts:136-141 | a translation failure at position k changes nothing when fewer than k+1 segments are kept, because that request is never made |
| `ProcessVideo.TranslateFaultStops` | pages/api/processVideo.ts:136-141 | when the translation of kept segment k fails, the run replies 500 after exactly k+1 requests (the texts of kept segments 0..k, in order). It writes no subtitles, runs no ffmpeg, and leaves the upload and the extracted audio on disk |
| `ProcessVideo.CommandLinesDiffer` | pages/api/processVideo.ts:156-162 | both ffmpeg command lines start with `ffmpeg -y -i` and the quoted input, and end with the quoted output. They part at the options: `-c ` for the stream copy and `-vf` for the subtitle filter, so they are never equal |
| `ProcessVideo.ErrorPathKeepsFiles` | pages/api/processVideo.ts:181-184 | a 500 deletes nothing: the upload and every intermediate file produced before the failing step stay on disk |
| `ProcessVideo.MissingKeyKeepsUpload` | pages/api/processVideo.ts:103-110 | a 400 for a missing key leaves the already saved upload on disk and calls no service |
| `GeneratePodcast.FindVideo` | pages/api/generatePodcast.ts:43-46 | the first name that starts with `video.`, or none exactly when no name does |
| `GeneratePodcast.Handle` | pages/api/generatePodcast.ts:164-187 | 405 exactly for a non-POST request. The missing voice key is checked first. A missing URL or OpenAI key is reported only when the voice key is present. 405 and 400 leave the disk unchanged |
| `GeneratePodcast.SuccessReply` | pages/api/generatePodcast.ts:222-240 | a successful run replies 200 with `success`, the fixed message, and both `audioData` and `audioUrl` equal to `data:audio/mp3;base64,` followed by the encoded voiced script |
| `GeneratePodcast.RegistrationOrder` | pages/api/generatePodcast.ts:189-220 | a failed download registers nothing. After a download the directory and the video are registered. The audio path is registered before extraction runs, and the mp3 path only after it is written |
| `GeneratePodcast.CleanupFreshDir` | pages/api/generatePodcast.ts:247-261 | for a fresh directory, cleanup restores the disk exactly when every file written there was registered. Otherwise the unregistered files and the directory stay |
| `GeneratePodcast.DownloadFailureLeaksDir` | pages/api/generatePodcast.ts:32-52 | a download that throws or yields no `video.*` file gives 500 and leaves the `yt-` directory and whatever the download wrote in it |
| `GeneratePodcast.ExitLeavesDisk` | pages/api/generatePodcast.ts:173-261 | after a download that produced only the video, every exit puts the disk back as it was before the request. The one exception is a failing mp3 write that created the file: that file is never registered, so it and the `yt-` directory stay |
| `GeneratePodcast.NamesDiffer` | pages/api/generatePodcast.ts:190-218 | the video, `audio.wav` and `podcast.mp3` paths in the download directory are pairwise distinct |

## Left out

- Multipart parsing is a parameter. A request carries the parsed fields, or nothing when the parser throws; a repeated field is read as its first value.
- Whisper's floating-point seconds, the `* 1000` and `Math.round` are not modelled. Segment times enter the model as integer milliseconds.
- ffmpeg, Whisper, the chat model, the voice service and yt-dlp are not modelled internally. Each is reduced to its result (a function parameter), whether it throws (the `fault` parameter), and the file it writes (`partial` for a half-written one). The prompts, model names and request options they are called with are not modelled.
- The base64 encoding is a function parameter; the model does not inspect its alphabet.
- The bytes of the video reply body and of the mp3 are not modelled. The video reply is its status and headers; the mp3 file is its path.
- The error message texts, the JSON error bodies and every `console` call are left out; a failing step is identified by its stage.
- `path.join` normalisation of `.`, `..` and duplicate inner slashes is not modelled; the join adds one `/` unless the directory already ends with one. Every join in the handlers puts a directory in front of a plain name.
- `mkdtemp`'s random suffix and `readdirSync`'s order are parameters. The lemmas about leftover files take a fresh directory and names without `/` as given.
- `os.tmpdir()` is a parameter. The lemmas take it as a directory path without a trailing `/` (or the root), which is how Node reports it, and take the `mkdtemp` suffix to hold no `/`.
- `rmdirSync` is modelled as removing an empty directory and throwing otherwise; permissions and other I/O errors are not modelled.
- Concurrency between requests is not modelled; each request runs against its own disk value.
- The UI files (the page and its components) are not part of this model.
- `SrtTime.FormatTimeShape`, `SrtTime.ParseFormatTime`, `SrtTime.FormatTimeInjective` and `Srt.ParseRenderCue` are stated for non-negative times only. The speech service never returns negative times. `SrtTime.FormatTimeMinusOne` shows what a negative time would print.
- `TempFiles.CleanupSpec` and `TempFiles.UnlinkExistingSpec` are stated for disks where no path is both a file and a directory. `TempFiles.CleanupFrame` and `TempFiles.UnlinkExistingFrame` hold without that condition.
- `GeneratePodcast.ExitLeavesDisk` is stated for a download that leaves only the video file. `GeneratePodcast.CleanupFreshDir` covers any set of written files.
