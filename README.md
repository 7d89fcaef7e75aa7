# Subtitle and scene timing of the story-video editor

This project models the timing logic of the video editor in
`src/video/editor.py`: the arithmetic that decides when each caption and each
image appears. It is written in Dafny, and the properties below are proved
about the model.

- **Subtitles** (`subtitles.dfy`) models `Editor.generate_subtitles`. It turns a
  transcript, given as a sequence of segments of timed words, into subtitle chunks.
  Words are buffered per segment and flushed whenever the buffer reaches
  `subtitles_chunk_size`. A leftover buffer is flushed at the end of each segment.
  The code lives in two methods, `ChunkSegment` and `GenerateSubtitles`, each
  proved equal to a recursive reference definition (`SegmentChunks`,
  `Subtitles`).
- **Timecode** (`timecode.dfy`) models `Editor.format_time`, which turns seconds
  into `HH:MM:SS,mmm`. It covers Python's floored `%` on floats, `round`
  (half to even) and `{n:02d}` zero padding. It includes the as-written field
  computation, a corrected one with the carry (see Findings), and a parser for the
  timecode text used to state round trips.
- **Srt** (`srt.dfy`) models the text that `Editor.create_srt_file` builds,
  with its timing lines rendered by `format_time` as written. Each chunk becomes one block: an index line, a `start --> end` line, a text line
  and a blank line. The whole text is then `str.strip()`ped. The loop is
  `CreateSrtText`, proved equal to `SrtText`.
- **Timing** (`timing.dfy`) models the duration arithmetic of
  `Editor.create_video`:
  - Each scene gets `audio_duration * len(text) / total_length` seconds.
  - Successfully fetched images are sorted by index.
  - Each image clip lasts its time plus a third, except image 0, which
    lasts just its time.
  - In the placement loop, each later clip starts a third of its time before
    the running `current_time`.

Facts about the code that the model follows:

- **The allocator.** Scene times come only from the character-count ratio
  allocator at `src/video/editor.py:153-157`. No word-count allocator, minimum
  duration or last-scene correction exists in the code.
- **Errors from the allocator.** An empty scene list yields no times. Only a
  non-empty list whose texts are all empty fails, with Python's division by
  zero at line 156.
- **The millisecond carry.** `format_time` does not carry the rounding of the
  milliseconds into the seconds (see Findings). The caption text uses
  `format_time` as written, as `create_srt_file` does at line 113.

Other choices in the model:

- **Seconds are exact reals.** Floating-point rounding in these computations is
  not represented.
- **Invalid chunk sizes.** A `subtitles_chunk_size` of 0 or below flushes after
  every word, exactly like 1 (`Subtitles.FlushSize`).

## Model

| member | source | states |
|---|---|---|
| Subtitles.SegmentChunks | src/video/editor.py:72-93 | Reference definition of one segment's chunks: full groups of n words from the front, then one smaller group if words remain. Its properties are the lemmas below. |
| Subtitles.Subtitles | src/video/editor.py:66-95 | Reference definition of the whole chunk list: each segment's chunks, segment after segment, with a chunk size below 1 treated as 1. |
| Subtitles.ChunkSegment | src/video/editor.py:69-93 | The per-segment word loop with its buffer yields exactly the reference chunks `SegmentChunks` of the segment. |
| Subtitles.GenerateSubtitles | src/video/editor.py:61-95 | The nested loops over segments and words yield exactly the reference chunk list `Subtitles`: each segment's chunks in order, segment after segment. |
| Subtitles.SegmentChunkAt | src/video/editor.py:74-93 | Chunk k of a segment is made of words k·n up to min((k+1)·n, length). Its start is the first word's start, its end the last word's end, and its text the word texts joined with no separator. |
| Subtitles.SegmentChunkSize | src/video/editor.py:74-93 | Every chunk of a segment but the last holds exactly n words ((k+1)·n ≤ length), and the last one holds at least one word (k·n < length). |
| Subtitles.SegmentChunksCount | src/video/editor.py:74-93 | A segment of m words gives the least number of chunks c with m ≤ c·n, so an empty segment gives no chunk. |
| Subtitles.SegmentChunksText | src/video/editor.py:72-93 | Joining the chunk texts of a segment gives back the joined word texts: no word is lost or reordered. |
| Subtitles.SubtitlesText | src/video/editor.py:66-95 | Joining all chunk texts gives the joined texts of all words of all segments, in input order. |
| Subtitles.SubtitlesOrigin | src/video/editor.py:68-93 | Every chunk is a chunk of one single segment: no chunk mixes words of two segments. |
| Timecode.PyMod | src/video/editor.py:100-102 | Python's float `%` by a positive modulus: the result lies in [0, m) and differs from x by a whole multiple of m. |
| Timecode.RoundHalfEven | src/video/editor.py:103 | Python's `round`: within 0.5 of its argument, and even on a tie. |
| Timecode.SplitTime | src/video/editor.py:99-104 | The as-written fields of `format_time`: floored hours, then floored minutes and seconds of the floored remainders, then the rounded fraction times 1000. Their ranges are stated by `SplitTimeFields`. |
| Timecode.SplitTimeFields | src/video/editor.py:97-104 | The as-written fields: hours = ⌊s/3600⌋ (not negative for s ≥ 0), minutes and seconds in [0, 60). Hours, minutes and seconds add up to ⌊s⌋. The millisecond field is within 0.5 of the fraction times 1000 and lies in [0, 1000], 1000 included. |
| Timecode.MillisReach1000 | src/video/editor.py:103-104 | For 59.9996 s the as-written fields are 0 h, 0 min, 59 s and 1000 ms. |
| Timecode.SplitTimeCarryFields | src/video/editor.py:97-106 | Corrected fields: all in range, milliseconds below 1000. Together they give back the time rounded to milliseconds, so they are within 0.5 ms of the input. |
| Timecode.CarryAt59_9996 | src/video/editor.py:97-106 | For 59.9996 s the corrected fields are 0 h, 1 min, 0 s and 0 ms. |
| Timecode.DigitsValue | src/video/editor.py:112 | `str(n)` of a natural number is non-empty, all decimal digits, has no superfluous leading zero and reads back as n. |
| Timecode.PadTwo | src/video/editor.py:105 | `{n:02d}` of 0 ≤ n < 100 is exactly the two digits of n. |
| Timecode.PadThree | src/video/editor.py:105 | `{n:03d}` of 0 ≤ n < 1000 is exactly the three digits of n. |
| Timecode.Pad | src/video/editor.py:105 | `{n:0wd}`: the decimal digits of n, zero-filled on the left to width w, with a minus sign first for a negative n. Exact widths are stated by `PadTwo` and `PadThree`. |
| Timecode.Render | src/video/editor.py:105 | The f-string `HH:MM:SS,mmm` of four fields. Its round trip is `RenderRoundTrip`. |
| Timecode.RenderRoundTrip | src/video/editor.py:105 | Fields in range render as a 12-character `HH:MM:SS,mmm` that parses back to the fields' total in milliseconds. |
| Timecode.FormatTime | src/video/editor.py:97-106 | `format_time` as written: the rendering of the as-written fields. Its malformed output for 59.9996 s is `FormatTimeAt59_9996`. |
| Timecode.FormatTimeAt59_9996 | src/video/editor.py:97-106 | `format_time(59.9996)` as written is `00:00:59,1000`, which is not a well-formed timecode. |
| Timecode.FormatTimeCarryRoundTrip | src/video/editor.py:97-106 | The corrected format of any time s with 0 ≤ s < 359999.9995 (the times that round to less than 100 hours) is a well-formed timecode that parses back to the time rounded to whole milliseconds. |
| Srt.Strip | src/video/editor.py:116 | `str.strip()`: leading whitespace cut, then trailing whitespace. Its meaning is stated by `StripSpec` and `StripEnds`. |
| Srt.TrimStart | src/video/editor.py:116 | Leading whitespace removed: the result is a suffix of the input, all that was cut is whitespace, and the result does not start with whitespace. |
| Srt.TrimEnd | src/video/editor.py:116 | Trailing whitespace removed: the result is a prefix of the input, all that was cut is whitespace, and the result does not end with whitespace. |
| Srt.StripSpec | src/video/editor.py:116 | `str.strip()` keeps one contiguous stretch of the input and cuts only whitespace on either side of it. |
| Srt.StripEnds | src/video/editor.py:116 | The result of `str.strip()` neither starts nor ends with whitespace. |
| Srt.TimeLineAt59_9996 | src/video/editor.py:113 | A chunk starting at 59.9996 s gets the timing line `00:00:59,1000 --> …`, as `format_time` writes it. |
| Srt.Blocks | src/video/editor.py:110-115 | The unstripped text: for chunk i (from 1) its index line, its `start --> end` line from `format_time`, its text line and a blank line, in chunk order. |
| Srt.SrtText | src/video/editor.py:110-116 | The stripped text of all blocks. Its shape is stated by `SrtTextShape` and `SrtTextEnds`. |
| Srt.BlocksStartWithOne | src/video/editor.py:111-112 | The unstripped caption text of a non-empty chunk list starts with the first index, `1`. |
| Srt.SrtTextShape | src/video/editor.py:110-116 | No chunks give the empty text. Otherwise the text is blocks 1..n−1 in full, then the last block's index line, timing line and text. All trailing whitespace of that is cut: the text's trailing space, the blank line and whitespace the text ends with, which for an empty or all-whitespace last text includes the timing line's line break. |
| Srt.SrtTextEnds | src/video/editor.py:110-116 | With at least one chunk the caption text is non-empty, starts with `1` and does not end with whitespace. |
| Srt.CreateSrtText | src/video/editor.py:108-116 | The loop appending index, timing, text and blank lines, followed by the strip, yields exactly `SrtText` of the chunks. |
| Timing.TimePerImages | src/video/editor.py:153-157 | The allocation: each scene gets the audio duration times its text length over the total length. On success there is one time per scene. |
| Timing.TimePerImagesFails | src/video/editor.py:153-157 | Allocation fails (division by zero) if and only if there is at least one scene and every scene text is empty. |
| Timing.TimePerImagesSum | src/video/editor.py:153-157 | For a non-empty scene list, the allocated times add up to the audio duration. |
| Timing.TimePerImagesShares | src/video/editor.py:153-157 | One time per scene. Each time times the total text length equals the audio duration times the scene's text length, and no time is negative when the audio duration is not. |
| Timing.Fetched | src/video/editor.py:133-143 | The indices of the successfully fetched images after the sort by index. Its meaning is stated by `FetchedSpec`. |
| Timing.FetchedSpec | src/video/editor.py:133-143 | The sorted fetched images are in strictly increasing index order. An index is among them exactly when its fetch succeeded. |
| Timing.FetchedAll | src/video/editor.py:133-143 | When every fetch succeeds, the fetched indices are 0, 1, …, n−1. |
| Timing.Clips | src/video/editor.py:161 | `zip` yields as many clips as the shorter of the fetched images and the allocated times. |
| Timing.AnimateClips | src/video/editor.py:160-179 | The clip loop yields exactly `Clips`: the k-th fetched image paired with the k-th time. Its duration is time + time/3 unless the image index is 0. Its cross-fade flag is set when 0 < index < number of fetched images. |
| Timing.ClipOverlap | src/video/editor.py:164-165 | A clip of an image other than image 0, less its fade of a third of its time, lasts exactly its time. |
| Timing.CrossfadeSkipped | src/video/editor.py:175-177 | With image 1 of 3 missing, image 2's clip still lasts time + time/3 but gets no cross-fade, because 2 is not below the 2 fetched images. |
| Timing.CurrentTime | src/video/editor.py:183-191 | `current_time` after k clips: the first clip's duration, plus each further clip's duration less its fade. Its closed form is `CurrentTimeSum`. |
| Timing.StartTime | src/video/editor.py:183-189 | Where a clip starts: clip 0 at 0, every other clip its fade before the current time. |
| Timing.AssembleTimeline | src/video/editor.py:182-197 | The placement loop fails with "movie should contain images" exactly when there are no clips. Otherwise clip 0 starts at 0, and each later clip i starts at the current time less times[i]/3. The final current time is `CurrentTime` over all clips. |
| Timing.ClipEnds | src/video/editor.py:184-191 | Each clip ends exactly at the current time reached once it is placed. So each later clip starts times[i]/3 before the previous clip ends. |
| Timing.StartAfterPrevious | src/video/editor.py:186-191 | A later clip starts no earlier than the previous one if and only if its fade, times[i]/3, is at most the previous clip's duration. A longer fade places it before the previous clip's start. |
| Timing.StartBeforePrevious | src/video/editor.py:153-191 | Times 1 and 30 (scene texts of 10 and 300 characters) place clip 1 at −9, before clip 0 at 0, so the two overlap by 1 s rather than by the 10 s fade. |
| Timing.CurrentTimeSum | src/video/editor.py:183-191 | With fetched images in increasing order, the current time after k clips is the first clip's duration plus the times of clips 1..k−1. |
| Timing.TimelineSum | src/video/editor.py:133-191 | When every image is fetched, the final current time is the sum of all allocated times. |
| Timing.TimelineMatchesAudio | src/video/editor.py:153-191 | With one scene per image, all images fetched and a successful allocation, there is one clip per scene and the timeline ends exactly at the audio duration. |
| Timing.TimelineLastEnds | src/video/editor.py:186-195 | With images in increasing order and no negative time, no clip ends after the final current time, so the composed video lasts exactly that long. |

## Left out

- Image fetching. `fetch_data`, the thread pool and the `as_completed` collection (src/video/editor.py:42-54, 123-141) are network I/O and concurrency. Their outcome is modelled as one success flag per image. The order of completion is erased by the sort at line 143, so it is not an input.
- Transcription. `transcribe` (src/video/editor.py:56-59) is a call into the Whisper model. Its segments of timed words are the input of `GenerateSubtitles`. The debugging `print` at line 77 is left out.
- The caption file. Opening and writing `srt_path` (src/video/editor.py:109, 117) is I/O. The model stops at the text that would be written.
- MoviePy rendering. `ImageClip`, the zoom `resized` lambda, `with_position`, `CompositeVideoClip`, `CrossFadeIn`, `TextClip`, `SubtitlesClip`, `with_audio` and `write_videofile` are library calls whose code is not part of this model. A clip is reduced to its image index, allotted time, duration and a flag saying whether the cross-fade is applied. A placed clip adds its start time. The zoom lambda's division by the clip time happens only during rendering and is not modelled.
- Floating point. Times are exact reals. Python's binary floats, the rounding of `e / total_length`, `audio_duration * ratio` and `sum` are not represented, so the sums proved exact here hold in Python only up to rounding.
- Timing.AssembleTimeline: it takes each clip's duration as computed by `AnimateClips`. That a composite or cross-faded clip keeps the duration of the clip it wraps is a property of MoviePy and is not modelled.
- Timecode.FormatTimeCarryRoundTrip: it is stated for times below 359999.9995 s, the times that round to less than 100 hours, where the hour field has two digits. Longer times render with more hour digits and are outside the parser used to state the round trip.
- Scene records. The scenes passed to the editor are dictionaries, and only their `"text"` field is read (line 153). The model takes the list of those texts.
- The older editor. src/video_editing/editor.py holds an older copy of the same character-ratio allocation and is not part of this model.

## Findings

| source | as written | input that shows it | evidently intended | confidence | as-written member | corrected member |
|---|---|---|---|---|---|---|
| src/video/editor.py:97-106 | The millisecond field is rounded after the seconds are floored, with no carry, so it can be 1000 and print four digits. | `format_time(59.9996)` gives `00:00:59,1000`. | Round first and carry into the seconds: `00:01:00,000`. | high; not executed | Timecode.FormatTimeAt59_9996 | Timecode.FormatTimeCarryRoundTrip |

The corrected format is `Timecode.FormatTimeCarry`. The caption text (`Srt.TimeLine`) keeps `format_time` as written, because that is what `create_srt_file` calls at line 113; `Srt.TimeLineAt59_9996` shows the four-digit field reaching the caption text.
