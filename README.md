# Hard-sub ripping and bilingual release scripts, modelled in Dafny

The repository holds three command-line scripts that post-process subtitles.

- `hardsub-ripping.py` rebuilds a SubRip (`.srt`) file from subtitles burnt
  into a video. It works in four steps:
  - it parses the start/end markers the user gives (`string_to_frame`);
  - it finds the frames where a dialogue opens and closes (edge detection);
  - it cuts dialogues whose text changes half-way (subdivision);
  - it writes one event per dialogue, with the text read at its middle frame.
- `multi-release.py` splits every event of a bilingual file into Chinese and
  English lines (`truncater` removes speaker names). It writes up to four
  variants: Chinese, Chinese+English, English with names, and English.
- `auto-transcription.py` contributes only its argument validator
  `text_area_test`.

The model keeps the scripts' own entities:

- the `starts`/`ends` lists;
- the sampled frame texts;
- the output file as a `SubtitleFile` object that `writer` appends to;
- the event text split at the two-character separator backslash-N.

Loops that append to lists or write to files are methods. Each is proved
equal to a specification function, and the properties are proved about that
function.

Modules, one per file:

- `Optional` (`wrappers.dfy`), `Seqs` (`seqs.dfy`), `Strings` (`strings.dfy`):
  the option type, filters and subsequences, and Python's `in`, `split` and
  `join`.
- `PyInt` (`pyint.dfy`): Python's `int()` and `str()` on integers.
- `Srt` (`srt.dfy`): the output file and `writer`. Both scripts define the
  same `writer`, at hardsub-ripping.py:48-56 and multi-release.py:39-47.
- `FrameMarkers` (`frame_markers.dfy`): `string_to_frame`.
- `Edges` (`edges.dfy`): the edge-detection pass.
- `Subdivision` (`subdivision.dfy`): the subdivision loop.
- `EventOutput` (`event_output.dfy`): the numbering, midpoint and output loop.
- `MultiRelease` (`multi_release.dfy`): multi-release.py.
- `TextArea` (`text_area.dfy`): `text_area_test`.

These inputs are parameters of the model:

- the OCR text of a frame (`Subdivision.Sampler`);
- the similarity judgement `is_same_sentence` (`Subdivision.Similar`);
- the timestamp formatting (`EventOutput.Stamp`, and `stamp` in `MultiRelease`);
- the list of frames that carry a subtitle (`present`).

Quirks of the scripts that the model reproduces:

- **No sorting.** Events are numbered in the order they were appended, not
  sorted by start (hardsub-ripping.py:179-183).
- **Appended pairs.** A cut at frame j appends start j + 1 and end j
  (171-172). So for the dialogue (10, 20) that changes text at frame 15, the
  lists become starts [10, 15] and ends [20, 14]. The events are (10, 20) and
  (15, 14), not (10, 14) and (15, 20). This is `Subdivision.SplitDialogue` and
  `EventOutput.SplitDialogueOutput`.
- **Frame 1 is classified only when it is the last frame** (154, 159). So
  the signal present at {0, 1, 3, 4} with end 5 gives starts [0, 3] and ends
  [4] (`Edges.ScenarioB`), not two closed dialogues.
- **Unequal `starts`/`ends` are never reported as an error.** An
  `IndexError` happens only:
  - at line 164, when `ends` is too short (`Subdivision.Subdivide` returns
    `ok` false). Before that, a shorter `ends` can pair a start with an end
    that was never its dialogue: ScenarioB's starts [0, 3] and ends [4], plus
    a cut at j in the first dialogue, make iteration 1 read (3, j). The model
    reproduces this, and `Subdivision.OnlyOriginalIntervals` is stated only
    for `ends` at least as long as `starts`;
  - at line 180, when `starts` is shorter than `ends`. In that case
    `EventOutput.WriteEvents` has written the events before the failure.
- **A plain integer marker gives `None`.** `string_to_frame` returns `None`
  for a plain integer marker, because `return frame` sits in the `except`
  branch (88).

## Model

| member | source | states |
|---|---|---|
| FrameMarkers.StringToFrame | hardsub-ripping.py:67-88 | a plain integer marker gives None; the marker is refused (exit) exactly when it is not an integer and a colon field is not an integer or there are 1 or at least 4 fields; every converted frame is a multiple of 30 |
| FrameMarkers.MinutesFrame | hardsub-ripping.py:84-85 | `MM:SS` becomes a whole number of seconds at the fixed rate of 30 frames per second |
| FrameMarkers.HoursFrame | hardsub-ripping.py:86-87 | `HH:MM:SS` becomes a whole number of seconds at the fixed rate of 30 frames per second |
| FrameMarkers.ConvertedMinutes | hardsub-ripping.py:74-85 | a non-integer marker whose colon fields parse as two integers is converted by the minutes formula |
| FrameMarkers.ConvertedHours | hardsub-ripping.py:74-87 | a non-integer marker whose colon fields parse as three integers is converted by the hours formula |
| FrameMarkers.MinutesSeconds | hardsub-ripping.py:84-85 | the text `str(mm) + ":" + str(ss)` converts to mm*60*30 + ss*30 |
| FrameMarkers.HoursMinutesSeconds | hardsub-ripping.py:86-87 | the text `str(hh):str(mm):str(ss)` converts to hh*60*60*30 + mm*60*30 + ss*30 |
| FrameMarkers.PlainIntegerIsNone | hardsub-ripping.py:71-73 | the rendering of any integer yields None rather than a frame |
| FrameMarkers.TooManyFields | hardsub-ripping.py:81-83 | four or more integer colon fields are refused |
| FrameMarkers.ColonIsNotInteger | hardsub-ripping.py:71-74 | a marker holding a colon always reaches the colon branch |
| FrameMarkers.ColonFields | hardsub-ripping.py:74-78 | integers rendered and joined by colons split and parse back to the same integers |
| PyInt.ParseInts | hardsub-ripping.py:76-77 | the fields parse exactly when each one parses, and then field by field |
| PyInt.ParseIntToString | hardsub-ripping.py:72 | `int(str(n)) == n` for every integer |
| PyInt.ParseIntPadded | hardsub-ripping.py:72 | `int` ignores one space on each side of a rendered integer |
| PyInt.ParseIntSameStrip | hardsub-ripping.py:72 | two texts with the same stripped form parse alike |
| PyInt.ParseIntChars | hardsub-ripping.py:72 | a text `int` accepts holds only whitespace, digits and signs |
| PyInt.IntToString | hardsub-ripping.py:52 | `str(n)` is non-empty and made of digits and a minus sign |
| PyInt.ParseRenderAll | auto-transcription.py:66 | `[int(f) for f in [str(n) for n in ns]]` is ns |
| PyInt.SplitRendered | auto-transcription.py:66 | integers joined by a non-digit separator split back into their renderings and parse back to the integers |
| Edges.DetectEdges | hardsub-ripping.py:147-160 | the appending loop builds exactly the frames that open, and exactly the frames that close, in list order |
| Edges.EdgeRules | hardsub-ripping.py:152-160 | frame 0 opens whenever present; an interior frame opens iff its predecessor is absent and successor present, and closes iff the reverse; an isolated interior frame does neither; frame 1 is classified only when it is the last frame; the last frame closes unless it is frame 0; every entry is a present frame |
| Edges.EdgesOrdered | hardsub-ripping.py:140-160 | on an ascending presence list both lists are strictly increasing subsequences of it |
| Edges.RunsPairUp | hardsub-ripping.py:147-160 | when every run of present frames is at least two long and inside frames 2 to end - 1, there are as many starts as ends and starts[k] < ends[k] < starts[k + 1] |
| Edges.SimpleRules | hardsub-ripping.py:154-158 | on such runs a frame opens iff its predecessor is absent, closes iff its successor is absent, and never does both |
| Edges.StepRules | hardsub-ripping.py:154-158 | on such runs the frame at each list position opens iff the previous run ended before it and closes iff its run ends with it |
| Edges.PairedPrefix | hardsub-ripping.py:147-160 | after each prefix of the scan the lists interleave, and a dialogue is open exactly when the current run goes on |
| Edges.ScenarioA | hardsub-ripping.py:147-160 | present {2, 3, 4} with end 7 gives starts [2] and ends [4] |
| Edges.ScenarioB | hardsub-ripping.py:152-160 | present {0, 1, 3, 4} with end 5 gives starts [0, 3] and ends [4]: frame 1 never closes the first run |
| Subdivision.Subdivide | hardsub-ripping.py:162-176 | the loop over the original `len(starts)` reaches the state of the reference iteration, and fails exactly when that iteration meets an index past `ends` |
| Subdivision.CutInterval | hardsub-ripping.py:165-176 | one dialogue's backward scan appends j + 1 to `starts` and j to `ends` for each cut of the interval, in scan order |
| Subdivision.SubdivideUpTo | hardsub-ripping.py:162-176 | the iteration only lengthens `starts` |
| Subdivision.SubdivideExtends | hardsub-ripping.py:162-176 | existing entries are never overwritten; both lists grow by the same number of entries; every appended start is its appended end plus one |
| Subdivision.OnlyOriginalIntervals | hardsub-ripping.py:162-176 | when `ends` is at least as long as `starts`, the result is the original lists followed by the cuts of the original dialogues (starts[i], ends[i]) only, in order |
| Subdivision.PairedNeverCrashes | hardsub-ripping.py:162-164 | when `ends` is at least as long as `starts` no IndexError happens |
| Subdivision.CrashPersists | hardsub-ripping.py:162-164 | once an iteration has failed the loop is over |
| Subdivision.IntervalCutsShape | hardsub-ripping.py:165-176 | similar end texts give no cut; cuts lie in (s, e] strictly decreasing, at most e - s of them; with a reflexive similarity every cut is below e |
| Subdivision.ScanCutsShape | hardsub-ripping.py:168-176 | the scan from j down to s + 1 yields strictly decreasing cuts in (s, j], at most j - s of them |
| Subdivision.ScanAdvance | hardsub-ripping.py:169-176 | at frame j the scan skips a frame similar to the end reference, cuts and stops at one similar to the start text, and otherwise cuts and takes the boundary as the new end reference |
| Subdivision.ScanSkips | hardsub-ripping.py:168-170 | frames that read like the end reference produce no cut |
| Subdivision.SplitDialogue | hardsub-ripping.py:162-176 | the dialogue (10, 20) reading "Hello" to frame 14 and "Goodbye" from 15, with each text similar to itself and not to the other, is cut once at 14, giving starts [10, 15] and ends [20, 14] |
| EventOutput.WriteEvents | hardsub-ripping.py:179-183 | the file gains the events numbered 1, 2, ... in list order, timed from starts[i] to ends[i] + 1 with the middle frame's text; it fails exactly when `starts` is shorter than `ends`, with the earlier events written |
| EventOutput.TruncHalf | hardsub-ripping.py:182 | `int(n / 2)` truncates toward zero |
| EventOutput.MidpointWithin | hardsub-ripping.py:182 | the sampled frame lies in [s, e] when s <= e and s + e + 1 >= 0 (frames are never negative; `Midpoint(-3, -3)` is -2) |
| EventOutput.CutMidpoint | hardsub-ripping.py:182 | an appended pair (j + 1, j) with j >= -1 samples frame j + 1 |
| EventOutput.CutEventIsInstant | hardsub-ripping.py:180-182 | an event from an appended pair (j + 1, j) with j >= -1 starts and ends at the same timestamp and carries the text of frame j + 1 |
| EventOutput.ReadEvents | hardsub-ripping.py:179-183 | when no timestamp and no recognised line holds a newline, the file read back line by line is exactly the event lines followed by an empty field |
| EventOutput.SplitDialogueOutput | hardsub-ripping.py:179-183 | the cut dialogue above is written as event 1 over frames 10-21 with the text of frame 15, then event 2 as the instant at frame 15 |
| PyInt.ParseInt | hardsub-ripping.py:72 | computes `int(text)`: the stripped text is an optional sign and ASCII digits, None standing for ValueError; its properties are in `ParseIntToString`, `ParseIntPadded`, `ParseIntSameStrip` and `ParseIntChars` |
| Strings.Split | hardsub-ripping.py:74 | computes `s.split(sep)`, cutting at every occurrence from the left; at least one field; `JoinSplit`, `SplitJoin` and `SplitFieldsLackSeparator` relate it to `Join` |
| Strings.Join | hardsub-ripping.py:62-63 | computes Python's `sep.join(parts)`; `JoinSplit` and `SplitJoin` make it the inverse of `Split`, which states the round trip of splitting an event's text (multi-release.py:66) |
| Edges.Opens | hardsub-ripping.py:152-156 | the opening rule: frame 0, or an interior frame whose predecessor is absent and successor present; `EdgeRules` states it on the built lists |
| Edges.Closes | hardsub-ripping.py:154-160 | the closing rule: an interior frame whose predecessor is present and successor absent, or the frame end - 1; `EdgeRules` states it on the built lists |
| Edges.Starts | hardsub-ripping.py:147-156 | the present frames that open, in list order; `DetectEdges` is proved to build it and `EdgesOrdered`/`RunsPairUp` state its properties |
| Edges.Ends | hardsub-ripping.py:147-160 | the present frames that close, in list order; `DetectEdges` is proved to build it and `EdgesOrdered`/`RunsPairUp` state its properties |
| Subdivision.ScanCuts | hardsub-ripping.py:168-176 | the backward scan from frame j: a frame unlike the end reference is a cut, which stops the scan when it reads like the start text and otherwise becomes the new end reference; `ScanCutsShape`, `ScanAdvance` and `ScanSkips` state its behaviour |
| Subdivision.IntervalCuts | hardsub-ripping.py:163-176 | the cuts of one dialogue (s, e): none when the two end texts are similar, otherwise the scan from e; `IntervalCutsShape` states its bounds |
| Subdivision.Iteration | hardsub-ripping.py:163-176 | outer iteration i on the current lists: it reads `ends[i]` of the lists as they have grown (None for IndexError) and appends that dialogue's cuts; `SubdivideExtends`, `PairedNeverCrashes` and `OnlyOriginalIntervals` state what the iterations do |
| EventOutput.Midpoint | hardsub-ripping.py:182 | the frame `int((s + e + 1) / 2)` whose text an event carries; `MidpointWithin` and `CutMidpoint` state where it lies |
| EventOutput.EventLines | hardsub-ripping.py:179-183 | the lines of the first n events: number i + 1, timing from starts[i] to ends[i] + 1, text at the midpoint; `WriteEvents` is proved to write it and `ReadEvents`, `CutEventIsInstant`, `SplitDialogueOutput` state its properties |
| Srt.BlockLines | hardsub-ripping.py:48-56 | the lines `writer` writes for one event: number, `start --> end`, the content lines, a blank line; `Writer` is proved to write them and `ReadBack` recovers them |
| Srt.Writer | hardsub-ripping.py:48-56 | `writer` appends the number line, the `start --> end` line, one line per content item and a blank line, each ended by a newline |
| Srt.SubtitleFile.Write | hardsub-ripping.py:52 | `write` appends its argument to the file |
| Srt.TerminatedAppend | hardsub-ripping.py:52-56 | writing two runs of lines one after the other writes their concatenation |
| Srt.ReadBack | hardsub-ripping.py:48-56 | read back at newlines, the written text gives the lines written plus a final empty field, when no line holds a newline |
| Strings.JoinSplit | multi-release.py:66 | joining the fields of a split with the separator gives back the text |
| MultiRelease.Dialogues | multi-release.py:66 | `text.split('\\N')`, at least one dialogue; `DialoguesRejoin` is its round trip |
| MultiRelease.ChineseLines | multi-release.py:66-73 | the dialogues holding a CJK ideograph, in order; `SplitDialogues` is proved to build it and `DialoguePartition` states the partition |
| MultiRelease.EnglishLines | multi-release.py:66-73 | the dialogues holding none, in order; `SplitDialogues` is proved to build it and `DialoguePartition` states the partition |
| MultiRelease.IsCredit | multi-release.py:54-56 | one of the five ignored keywords occurs in the text as a substring; `CreditKept` uses it |
| MultiRelease.StripName | multi-release.py:53-58 | the greedy `(.*: )` removed from one line: what follows its last `": "`, or the line itself; `StripNameLeavesNoMark` and `StripNameIdempotent` state its properties |
| MultiRelease.RemoveNames | multi-release.py:53-58 | `re.sub('(.*: )', '', s)`: `StripName` on each line, since `.` stops at a newline; `TruncateLine` and `RemoveNamesIdempotent` state its properties |
| MultiRelease.Truncate | multi-release.py:49-59 | `truncater`: a credit text unchanged, any other with names removed; `CreditKept`, `TruncateLine` and `TruncateIdempotent` state its properties |
| MultiRelease.Content | multi-release.py:76-88 | the content of each variant: Chinese lines, Chinese then stripped English lines, English lines with names, stripped English lines; `VariantsAgree` and `Release` use it |
| MultiRelease.DialoguesRejoin | multi-release.py:66 | the dialogues of an event, joined with backslash-N, give back its text |
| MultiRelease.SplitAtSeparator | multi-release.py:66 | a first part holding no backslash-N is the whole first dialogue, and splitting goes on after the separator |
| MultiRelease.SplitDialogues | multi-release.py:66-73 | the nested loop with `break` and `for`/`else` yields exactly the Chinese and exactly the English dialogues, in order |
| MultiRelease.DialoguePartition | multi-release.py:67-73 | every dialogue lands in exactly one list (counts and multisets add up), both lists keep the dialogue order, and a dialogue is Chinese iff it holds a CJK ideograph |
| MultiRelease.BilingualEvent | multi-release.py:66-73 | a Chinese line and an English line, neither holding backslash-N, separated by one backslash-N, go one to each list |
| MultiRelease.EmptyEventIsEnglish | multi-release.py:68-73 | the empty text is one empty dialogue, filed as English |
| MultiRelease.LastNameMark | multi-release.py:53 | finds the last `": "` of a line, or reports that there is none |
| MultiRelease.StripNameLeavesNoMark | multi-release.py:53-58 | after removing the greedy `(.*: )` a line holds no `": "` |
| MultiRelease.StripNameIdempotent | multi-release.py:53-58 | removing a line's name twice is removing it once |
| MultiRelease.CreditKept | multi-release.py:54-56 | a text holding one of the five ignored keywords is returned unchanged |
| MultiRelease.TruncateLine | multi-release.py:53-59 | on a single line that is no credit, `truncater` removes everything up to and including the last `": "`, and leaves a line without `": "` unchanged |
| MultiRelease.RemoveNamesIdempotent | multi-release.py:53-58 | the substitution applied twice equals it applied once, line by line |
| MultiRelease.TruncateIdempotent | multi-release.py:49-59 | `truncater(truncater(s)) == truncater(s)` |
| MultiRelease.TruncateAll | multi-release.py:74 | `EN_lines` has the length of `ENWithNames_lines` and is its element-wise `truncater` |
| MultiRelease.VariantsAgree | multi-release.py:76-88 | all variants write event i with number i + 1 and the same start and end; the Chinese+English content is the Chinese lines followed by the stripped English lines |
| MultiRelease.WriteVariant | multi-release.py:75-90 | a requested variant gains the next event; one not requested is left alone |
| MultiRelease.Release | multi-release.py:61-90 | each requested output file holds exactly its variant of every event, in order |
| TextArea.CallerVerdict | auto-transcription.py:75-77 | the script goes on exactly for "Default" or four integer fields with c[3] > c[1] and c[0] > c[1]; None refuses like False |
| TextArea.TextAreaTest | auto-transcription.py:59-70 | "Default" is accepted; a non-integer field or fewer than four fields give False; otherwise True iff c[3] > c[1] and c[0] > c[1], else None |
| TextArea.RenderedBox | auto-transcription.py:65-68 | a box of rendered integers is refused below four fields and otherwise decided by c[0], c[1] and c[3] |
| TextArea.EmptyArea | auto-transcription.py:65-70 | the empty argument gives False |
| TextArea.RenderedIsNotDefault | auto-transcription.py:63 | no rendered box is mistaken for "Default" |
| TextArea.DecidedByFields | auto-transcription.py:66-68 | once the fields parse, the verdict depends on the parsed values only |
| TextArea.ExtraFieldsIgnored | auto-transcription.py:66-67 | fields after the fourth never change the verdict |

## Left out

- OCR (`transcriber`, `is_hardsubbed_img`, the PaddleOCR tools) is a foreign call. Frame texts are the abstract `Sampler`. The presence list is an input, assumed ascending where a lemma needs it, as the scan at hardsub-ripping.py:140-143 builds it.
- `is_same_sentence` (hardsub-ripping.py:58-65) is the abstract `Similar`, because difflib's ratio is library internals. Only the lemmas that say so assume it reflexive. The `''.join` of each sample (62-63) is folded into that abstract judgement, which therefore takes the line lists themselves; this is more general, so no stated property depends on it.
- pysubs2 (`frames_to_ms`, `ms_to_str`, `load`) is floating-point arithmetic and library formatting. Timestamps are the abstract `Stamp`. Loaded events are given as values.
- Video capture, frame cropping and `imwrite`, the random temporary folder, `tqdm`, `print`, `sys.argv` and closing files are I/O.
- The `"Default"` handling of the start/end markers (hardsub-ripping.py:100-108) is argument glue around `string_to_frame`.
- The `.srt` clean-up, the argv-based choice of outputs and the `NameError` wrappers of multi-release.py (10-37, 75-107) are plumbing. An output that was not requested is a `null` file in `MultiRelease.Release`.
- auto-transcription.py beyond `text_area_test` (zip extraction, cropping, result files) is I/O.
- PyInt.ParseInt: `int()` strips only the six characters space, tab, newline, carriage return, vertical tab (U+000B) and form feed (U+000C), then takes an optional sign and ASCII digits. The other characters Python strips (the separators U+001C to U+001F, U+0085, U+00A0 and the Unicode spaces), digit-group underscores and non-ASCII digits are not modelled.
- EventOutput.TruncHalf: `int((s + e + 1) / 2)` uses floating-point division. The model halves exactly, which differs only beyond 2^53.
- MultiRelease.RemoveNames: the regular expression `(.*: )` is modelled by its effect. On each line it removes everything up to the last `": "`, since `.` does not cross a newline. The regex engine itself is not modelled.
- Srt.SubtitleFile.constructor: a file opened with `a+` may already hold text. The constructor models a new empty file, and `EventOutput.WriteEvents` is stated relative to whatever the file held before.
