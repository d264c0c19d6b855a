# clippyio transcript processing, modelled in Dafny

This project models the two transcript-processing routines of the clippyio worker. A transcript is a list of timestamped segments (`start`, `end`, `text`).

- **Clip detection** (`detect_clips`). A greedy sweep grows a window from segment `i`. It absorbs the following segments while the span from the window start stays within `max_duration`. It stops as soon as the span reaches `min_duration`. A window that reaches `min_duration` is emitted as a clip `{start, end, duration, text}`. The sweep then resumes at the segment where growth stopped. At most `max_clips` clips are produced.
- **Subtitle projection**:
  - `format_ts` prints a time as a SubRip `HH:MM:SS,mmm` stamp.
  - `build_srt` keeps the segments that meet a clip window, edges included. It clips each kept segment to the window, rebases it to window-relative time and numbers the entries from 1. It writes each entry as a four-line block, and all lines are joined with `"\n"`.
  - `burn_captions` refuses to write the captioned clip over its own input.

Times are whole milliseconds (`int`). The Python code works on float seconds.

## How the model is built

- `transcript.dfy` (module `Transcript`): the `Segment` value and the texts of a run of segments.
- `strings.dfy` (module `Strings`) holds the string helpers the routines rely on, each defined once:
  - Python's `str.join`;
  - `str.strip` with Python's notion of whitespace;
  - `str(n)`;
  - the `{n:02}` and `{n:03}` sign-aware zero padding;
  - a decimal reader used as the inverse of printing.
- `clips.dfy` (module `Clips`):
  - `DetectClips` is an imperative method with the source's two nested loops. The inner loop is the method `GrowWindow`.
  - Both are proved against specification functions. `Window` is the stop of one window's growth. `EmittedSpans` is the sequence of windows the sweep emits. `DetectClipsSpec` is the resulting clips.
  - The properties of `detect_clips` are lemmas about these functions.
- `captions.dfy` (module `Captions`):
  - `FormatTs` is a function, partnered with the reader `ParseTs` and a round-trip lemma.
  - `BuildSrt` is a method with the source's `for` loop, `idx` counter and `lines` accumulator. It is proved to return `SrtText`, which is defined through the kept segments (`Kept`), their entries (`Entries`) and their rendered blocks.
  - `BurnCaptions` is the same-path guard. Path resolution is a parameter.
- `wrappers.dfy` (module `Wrappers`): `Option` and `Result`.

## Behaviour of the code worth noting

- **Windows can share a segment.** One might expect the sweep to resume after a window's last segment, so that clips never overlap. A window that stops on reaching `min_duration` leaves `j` on its last absorbed segment, and the next window starts there (clips.py lines 26-27 and 39). `Clips.ConsecutiveClipsShareSegment` exhibits this, and `Clips.EmittedSpansOrdered` states the order that does hold.
- **An oversized segment can still become a clip.** One might expect a segment longer than `max_duration` never to become a clip. The code never measures the first segment of a window against `max_duration` (lines 13-14 and 20). Suppose the sweep starts a window at such a segment while fewer than `max_clips` clips are out. If the segment reaches `min_duration` and the segment after it does not end earlier, it is emitted as a clip on its own (`Clips.OversizedSegmentAlone`, with the concrete case `Clips.OversizedFirstSegmentKept`). The code does not check that the transcript is sorted. On unsorted input an earlier window can absorb the oversized segment instead: [50 s, 51 s] "x", [0, 60 s] "big", [60 s, 75 s] "y" gives the single window "x big y" (`Clips.UnsortedOversizedAbsorbed`).
- **The window's end is the last absorbed end.** `end` is overwritten by each absorbed segment's end (line 23), not kept at the furthest end seen. A segment nested inside an oversized first segment that ends less than `min_duration` after the window start is absorbed and pulls `end` back below `min_duration`. The window is then dropped, unless a later segment within `max_duration` brings the span back up to `min_duration` (`Clips.NestedSegmentDropsWindow` shows a dropped window, `Clips.NestedSegmentRecovered` one that recovers). A nested segment that ends further out is either rejected as past `max_duration` or ends the window at its own end.
- **Subtitle times are clipped to the window, then rebased.** A segment [8 s, 12 s] in the window [10 s, 20 s] gets `max(8, 10) - 10 = 0` and `min(12, 20) - 10 = 2`, so it shows from 0 s to 2 s (captions.py lines 19-20). `Captions.WindowExample` proves these values.

## Model

| member | source | states |
|---|---|---|
| Clips.Grow | workers/app/processors/clips.py:17-29 | the inner loop from `j` on: the stop's last absorbed segment is at least `j - 1` and within the input, and it resumes either on that segment or on the one after it; `Clips.WindowIsWindow` and `Clips.WindowUnique` state what the stop means |
| Clips.Window | workers/app/processors/clips.py:17-29 | the window from `i`: its last absorbed segment is `i` or later and the sweep resumes strictly after `i`, so the outer loop always advances; `Clips.WindowIsWindow` and `Clips.WindowUnique` carry the rest |
| Clips.EmittedSpans | workers/app/processors/clips.py:12-39 | no windows are emitted once the input or the room is used up, and never more than the room; `Clips.EmittedSpansAreWindows` and `Clips.EmittedSpansOrdered` describe the windows themselves |
| Clips.DetectClips | workers/app/processors/clips.py:3-41 | the nested sweep returns exactly `DetectClipsSpec`: the clips of the windows the greedy sweep emits, at most `max_clips` of them |
| Clips.GrowWindow | workers/app/processors/clips.py:13-29 | the inner loop stops where `Window` says; `end` is the end of the last absorbed segment (the first segment's own end when none was absorbed); `text` is the texts of the window joined by single spaces |
| Clips.SweepStep | workers/app/processors/clips.py:12-39 | one outer round keeps the sweep invariant: the clips so far, followed by what the sweep emits from `j` with the remaining room, are the whole result |
| Clips.WindowIsWindow | workers/app/processors/clips.py:17-29 | a grown window satisfies `IsWindow`: every absorbed segment ends within `maxD` of the start; every absorbed segment before the stop is still short of `minD`; a stop on the last absorbed segment means `minD` was reached; otherwise the input ran out or the rejected segment would exceed `maxD` |
| Clips.WindowUnique | workers/app/processors/clips.py:17-29 | `IsWindow` pins the stop down: two stops that both satisfy it are equal |
| Clips.DetectClipsSpec | workers/app/processors/clips.py:12-37 | empty input or `max_clips <= 0` gives no clips; never more than `max_clips`; every clip has `duration == end - start >= min_duration` |
| Clips.EmittedSpansAreWindows | workers/app/processors/clips.py:31-39 | every emitted span is the window grown from its first segment, lies at or after the sweep position, and spans at least `minD` |
| Clips.EmittedSpansOrdered | workers/app/processors/clips.py:17-39 | emitted windows start at strictly increasing segments, and each starts no earlier than the last segment of the one before (they may share that segment) |
| Clips.ClipAt | workers/app/processors/clips.py:13-36 | clip k is built from emitted span k: `start` is the first segment's start, `end` is the last absorbed segment's end, and the text is the stripped, space-joined texts of that contiguous run |
| Clips.ClipWithinMax | workers/app/processors/clips.py:13-21 | when the window's first segment spans at most `maxD`, the clip's duration is at most `maxD` |
| Clips.ClipsWithinBounds | workers/app/processors/clips.py:19-35 | when no segment alone exceeds `maxD`, every clip's duration lies in `[minD, maxD]` |
| Clips.ClipStartsSorted | workers/app/processors/clips.py:13-39 | on input sorted by start, clip starts are non-decreasing |
| Clips.OversizedFirstSegmentKept | workers/app/processors/clips.py:13-21 | a lone 60 s segment, above the 45 s maximum, still becomes the clip [0, 60 s] with its text stripped |
| Clips.ConsecutiveClipsShareSegment | workers/app/processors/clips.py:26-39 | three 10 s segments give two clips, "a b" and "b c", which share segment b |
| Clips.PairClip | workers/app/processors/clips.py:13-36 | the clip of a two-segment window runs from the first start to the second end, and its text is the two texts joined by a space |
| Clips.OversizedSegmentAlone | workers/app/processors/clips.py:13-37 | a segment longer than `maxD` that alone reaches `minD`, and whose successor does not end earlier, is a window on its own: the sweep resumes after it, it is the next emitted span whenever there is room, and its clip is that segment with its text stripped |
| Clips.SingleClip | workers/app/processors/clips.py:13-36 | the clip of a one-segment window is that segment's start, end and duration with its text stripped |
| Clips.NestedSegmentDropsWindow | workers/app/processors/clips.py:18-31 | segments [0, 50 s] "a", [1 s, 5 s] "b", [40 s, 50 s] "c" with the defaults give no clip: "b" is absorbed and pulls the end back to 5 s, and the next window "c" is too short |
| Clips.NestedSegmentRecovered | workers/app/processors/clips.py:18-31 | segments [0, 50 s] "a", [1 s, 5 s] "b", [6 s, 25 s] "c" with the defaults give the one window "a b c": "b" pulls the end back to 5 s, and "c" brings the span to 25 s |
| Clips.UnsortedOversizedAbsorbed | workers/app/processors/clips.py:13-29 | on unsorted input [50 s, 51 s] "x", [0, 60 s] "big", [60 s, 75 s] "y" the 60 s segment is absorbed into the window from "x", and the only emitted window is "x big y" |
| Captions.TsFields | workers/app/processors/captions.py:5-8 | the hour, minute, second and millisecond fields of a time; it has no ensures of its own, and `Captions.TsFieldsExact` states its contract |
| Captions.FormatTs | workers/app/processors/captions.py:4-9 | the printed stamp; it has no ensures of its own, and `Captions.ParseFormatTs`, `Captions.FormatTsShape` and `Captions.FormatTsInjective` state its contract |
| Captions.TsFieldsExact | workers/app/processors/captions.py:5-8 | for `t >= 0` the fields satisfy `m < 60`, `s < 60`, `ms < 1000` and add back up: `h*3600000 + m*60000 + s*1000 + ms == t` |
| Captions.FormatTsShape | workers/app/processors/captions.py:9 | a stamp has `:`, `:` and `,` at 10, 7 and 4 characters from the end and is at least 12 long; below 100 hours it is exactly 12 |
| Captions.ParseFormatTs | workers/app/processors/captions.py:4-9 | round trip: reading the printed stamp of `t >= 0` gives `t` back |
| Captions.FormatTsInjective | workers/app/processors/captions.py:4-9 | two different non-negative times never print the same stamp |
| Captions.FormatTsExample | workers/app/processors/captions.py:4-9 | 2 s prints as `00:00:02,000` |
| Strings.PadInt | workers/app/processors/captions.py:9 | the `{n:0w}` padding; it has no ensures of its own, and `Strings.PadIntNonNegative`, `Strings.PadIntDecimal`, `Strings.PadIntWidth` and `Strings.PadIntNegative` state its contract |
| Strings.PadIntNonNegative | workers/app/processors/captions.py:9 | padding a non-negative number gives at least `w` decimal digits that read back as the number |
| Strings.PadIntWidth | workers/app/processors/captions.py:9 | a minute or second field (below 100) pads to exactly 2 characters, and a millisecond field (below 1000) to exactly 3 |
| Strings.PadIntDecimal | workers/app/processors/captions.py:9 | the padding of a non-negative number reads back as that number |
| Strings.PadIntNegative | workers/app/processors/captions.py:9 | a negative number keeps its `-` in front and still fills the width, and what follows the sign is `-n` padded to one place less, which reads back as `-n` by `Strings.PadIntDecimal` |
| Strings.Strip | workers/app/processors/captions.py:26 | the stripped text is no longer than the original, neither starts nor ends with whitespace, and is the text itself when that already has no surrounding whitespace |
| Strings.StripTrims | workers/app/processors/captions.py:26 | stripping removes only whitespace, and only at the two ends: the result is the text from its first non-space character on, with whitespace alone before and after it |
| Strings.TrimIsStrip | workers/app/processors/captions.py:26 | any cut of a text that removes only whitespace at its ends and leaves no whitespace at either end of what remains is the stripped text |
| Strings.StripIdempotent | workers/app/processors/captions.py:26 | stripping twice is stripping once |
| Strings.Join | workers/app/processors/captions.py:30 | Python's `str.join`; it has no ensures of its own, and `Strings.JoinAppend` states its contract |
| Strings.JoinAppend | workers/app/processors/clips.py:24 | joining two non-empty runs of parts puts exactly one separator between the two joined runs, which is how the inner loop extends its text |
| Captions.Kept | workers/app/processors/captions.py:15-17 | the kept segments are at most as many as the input's, and every one overlaps the window; `Captions.KeptExactly` and `Captions.KeptAppend` give the exact set and order |
| Captions.KeptExactly | workers/app/processors/captions.py:15-17 | a segment is kept if and only if it is in the input with `end >= start` and `start <= end` of the window (touching edges count) |
| Captions.KeptAppend | workers/app/processors/captions.py:15-17 | filtering is per segment and keeps input order: the kept segments of `a + b` are those of `a` followed by those of `b` |
| Captions.EntryOf | workers/app/processors/captions.py:19-20 | for an ordered window and segment that overlap, the rebased bounds satisfy `0 <= from <= to <= end - start` |
| Captions.Entries | workers/app/processors/captions.py:12-28 | there is one entry per kept segment, numbered `1..k` with no gaps |
| Captions.EntryAt | workers/app/processors/captions.py:15-27 | entry k has number k+1, bounds `max(seg.start, start) - start` and `min(seg.end, end) - start`, the stripped text, and lines `4k..4k+3` of the document are its number, `from --> to`, its text and an empty line |
| Captions.BuildSrt | workers/app/processors/captions.py:11-30 | the loop with its skip, counter and four appends returns exactly `SrtText`, the kept entries rendered as four lines each and joined by `"\n"` |
| Captions.SrtTextIsBlocks | workers/app/processors/captions.py:22-30 | joining all lines with `"\n"` equals joining the per-entry blocks with `"\n"`, so entries are separated by a blank line |
| Captions.SrtEmptyIff | workers/app/processors/captions.py:12-30 | the document is empty if and only if no segment is kept |
| Captions.WindowExample | workers/app/processors/captions.py:15-20 | window [10 s, 20 s] over a, b, c, d drops a and gives entries 1: [0, 2 s] "b", 2: [5 s, 8 s] "c", 3: [9 s, 10 s] "d" |
| Captions.BurnCaptions | workers/app/processors/captions.py:33-35 | fails if and only if input and output resolve to the same path; otherwise it hands the three paths on unchanged, with input and output distinct after resolution |

## Left out

- `workers/app/worker.py` (queue polling, download, the processing loop) is not part of this model. It is I/O plumbing with no state to verify.
- The other processors are not part of this model: audio extraction, cutting, transcription, caption and summary generation. They are wrappers over ffmpeg, Whisper and a text-generation service.
- The backend API, its storage and queue clients, and the frontend are not part of this model.
- The ffmpeg call in `burn_captions` and its style arguments (captions.py lines 37-59) are a foreign call. `Captions.BurnCaptions` returns the request it would hand over instead of running it.
- `Path.resolve()` (captions.py line 34) depends on the file system. It is a parameter `resolve` of `Captions.BurnCaptions`, and paths are compared after it.
- The file write `out_path.write_text` (captions.py line 30) is I/O. `Captions.BuildSrt` returns the text that would be written.
- Float seconds: times are whole milliseconds.
  - The model does not capture float error, for example a millisecond field printed one lower because `1.001 - 1` is slightly below `0.001`.
  - It does not capture the truncation of sub-millisecond input.
  - It does not capture `round(x, 2)` in clips.py lines 33-35, which rounds seconds to 10 ms. The three fields are rounded separately. So the source's `duration` can differ from its `end - start`: start 0.006 s and end 20.014 s give start 0.01, end 20.01 and duration 20.01.
- Dictionaries: segments and clips are datatypes with named fields. Missing keys are not modelled.
- Captions.ParseFormatTs: the round trip is stated for non-negative times only. A negative time can only reach `format_ts` when a window's end is before its start. `FormatTs` still models that case with Python's floor division and truncating `int()`. `Strings.PadIntNegative` says where the sign goes and that the digits after it are those of `-n`, which read back by `Strings.PadIntDecimal`.
- Captions.FormatTsShape: the twelve-character length is stated only below 100 hours. Above that the hour field simply grows, as the source's `{h:02}` does.
- Clips.DetectClipsSpec: `duration == end - start` holds for every clip only because rounding to 10 ms is not modelled; the source's rounded fields need not satisfy it.
- Clips.DetectClips: the clips carry unrounded millisecond times, for the same reason.
