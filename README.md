# Chess video generator: frame pipeline model

A Dafny model of the frame-synchronisation pipeline of the chess video
generator (`src/index.ts`). One run of the program checks that the game
record exists, parses it into one board position per move, and then either
creates the temp folder and renders every position to `temp_<i>.png`
(pausing two seconds before frames 1000, 2000, … counted from zero), or, when the temp folder
already exists, takes its directory listing as the frames. It then computes
the frame rate `Math.round(frames / desiredTime)` and starts the encoder on
the pattern `./temp/temp_%d.png`; encoder progress is shown as
`Math.round(done / frames * 100)` percent. A parse failure is reported as
`Invalid PGN! ` followed by the parser's error text with its first
`Error: Invalid FEN: ` removed.

Modules:

- `Text` (`text.dfy`): first-occurrence search and replacement, as
  JavaScript's `indexOf` and `replace` behave with a string pattern and a
  replacement without `$`.
- `FrameNaming` (`naming.dfy`): the decimal text of an index, frame names and
  paths, and the encoder's input pattern.
- `Diagnostics` (`diagnostics.dfy`): the parse-error message.
- `Rates` (`rates.dfy`): half-up rounding, the frame rate and the progress
  percentage.
- `Pipeline` (`pipeline.dfy`): the effects of frame production as a trace,
  the whole run as a function `RunSpec`, and class `Session`, whose fields
  are the `images` array the program fills and a ghost log of the effects
  it has on the world (folder creation, pauses, renders). Its methods
  `ProduceFrames` (the generation loop), `ReuseFrames` (the listing loop)
  and `Run` (`main` up to starting the encoder) are proved against those
  functions.
- `Scenarios` (`examples.dfy`): the pinned frame rates, the pauses of long
  games, and a 40-move, 4-second run.

Two things the code does not do, and the model does not either. When the temp
folder exists, the code reuses it whatever it holds: it does not compare the
number of files with the number of moves, does not sort the listing by frame
index and never clears a stale folder (`ExistingFolderRendersNothing` shows the frame rate is then computed
from the listing's length, not the game's). And a frame rate of 0 (an empty
game, or fewer frames than half the desired seconds) is not rejected but
handed to the encoder (`FpsZeroIff`).

## Model

| member | source | states |
|---|---|---|
| `Text.IndexOf` | src/index.ts:31 | the result is the least position where the pattern occurs, or none when it occurs nowhere |
| `Text.ReplaceFirst` | src/index.ts:31 | `replace` with a string pattern and a `$`-free replacement: the text unchanged when the pattern occurs nowhere; when it occurs, the text with one occurrence cut out and the replacement put in its place, so the length changes by the difference of the two (which occurrence: `ReplaceFirstAt`) |
| `Text.ReplaceFirstAbsent` | src/index.ts:31 | replacing a pattern that does not occur leaves the text unchanged |
| `Text.ReplaceFirstAt` | src/index.ts:31 | only the first occurrence is replaced; the text before and after it is kept |
| `Text.ReplaceFirstLeading` | src/index.ts:31 | a pattern at the very start of the text is the occurrence replaced |
| `FrameNaming.Decimal` | src/index.ts:49 | the index is written as at least one decimal digit, without leading zeros |
| `FrameNaming.DecimalRoundTrip` | src/index.ts:49 | reading back the decimal text of an index gives the index |
| `FrameNaming.DecimalInjective` | src/index.ts:49 | distinct indices have distinct decimal texts |
| `FrameNaming.FrameName` | src/index.ts:49 | the name of frame i is `temp_`, then decimal digits only, then `.png` |
| `FrameNaming.FramePath` | src/index.ts:49 | the path of frame i is the folder, one separator and frame i's name, so one character longer than both together |
| `FrameNaming.FramePaths` | src/index.ts:42-51 | the images collected for L frames are L paths, the i-th being the path of frame i |
| `FrameNaming.FrameFilesCount` | src/index.ts:42-51 | the files frames 0 .. L-1 leave in the folder number exactly L |
| `FrameNaming.JoinInjective` | src/index.ts:57 | distinct names in one folder join to distinct paths |
| `FrameNaming.FramePathInjective` | src/index.ts:49 | two frame paths in the same folder are equal only for the same index |
| `FrameNaming.FramePathsDistinct` | src/index.ts:42-51 | the frames of one run go to pairwise distinct paths, so no render overwrites another |
| `FrameNaming.ExpandPattern` | src/index.ts:64 | for a pattern of the shape of `./temp/temp_%d.png` (one `%`, starting its one `%d`), the encoder's file for index i is the pattern with that `%d` replaced by the decimal index: the pattern itself when it holds no `%d`; when it does, two characters shorter plus the digits |
| `FrameNaming.ExpandSinglePattern` | src/index.ts:64 | a pattern whose only `%d` follows a `%`-free lead expands to lead, decimal index and tail |
| `FrameNaming.EncoderReadsFrame` | src/index.ts:64 | for every index the encoder's pattern `./temp/temp_%d.png` names the file `temp_<i>.png` the renderer wrote (line 49) |
| `Diagnostics.ParseDiagnostic` | src/index.ts:31 | the message starts with `Invalid PGN! ` and is never longer than that header plus the error text |
| `Diagnostics.DiagnosticUnchangedIff` | src/index.ts:31 | the parser's error text appears unchanged after the header exactly when it holds no `Error: Invalid FEN: ` |
| `Diagnostics.DiagnosticStripsFraming` | src/index.ts:31 | an error text starting with `Error: Invalid FEN: ` is shown as the header followed by the rest |
| `Diagnostics.DiagnosticRemovesFirstOnly` | src/index.ts:31 | only the first `Error: Invalid FEN: ` is removed; text before it and any later one are kept |
| `Rates.RoundHalfUp` | src/index.ts:60 | the result r satisfies r - 1/2 <= n/d < r + 1/2 (halves round up) |
| `Rates.RoundHalfUpUnique` | src/index.ts:60 | that bracket holds for exactly one natural, the result |
| `Rates.Fps` | src/index.ts:60 | the frame rate is the natural number nearest frames / desiredTime, halves rounded up, as `Math.round` does |
| `Rates.FpsZeroIff` | src/index.ts:60 | the frame rate is 0 exactly when there are fewer frames than half the desired seconds, e.g. for no frames |
| `Rates.FpsExact` | src/index.ts:60 | a frame count that is an exact multiple of the duration gives the exact quotient |
| `Rates.Percent` | src/index.ts:73 | there is no percentage exactly when there are no images (the quotient is not finite) |
| `Rates.PercentBounds` | src/index.ts:73 | 0 frames done is 0%, all frames done is 100%, never above 100% while frames remain |
| `Rates.PercentMonotone` | src/index.ts:73 | more frames done never shows a smaller percentage |
| `Pipeline.Throttled` | src/index.ts:43 | a pause precedes frame i exactly when i is a non-zero multiple of 1000, hence never before frame 1000 |
| `Pipeline.FrameStep` | src/index.ts:43-51 | producing frame i is one effect, its render to the path of frame i, preceded by a two-second pause exactly when i is throttled |
| `Pipeline.JoinAll` | src/index.ts:57 | the images taken from a listing are as many as the names, the i-th being the i-th name joined to the temp folder |
| `Pipeline.PausesForStep` | src/index.ts:43-46 | one more frame adds a pause exactly when its index is a non-zero multiple of 1000 |
| `Pipeline.StepContents` | src/index.ts:43-51 | producing one frame renders it once and pauses before it only when it is throttled |
| `Pipeline.TracePrefix` | src/index.ts:42-53 | frames are produced in one pass: a prefix of the history yields a prefix of the effects |
| `Pipeline.TraceLength` | src/index.ts:42-53 | the trace of producing L frames has L + (L-1)/1000 effects (with `TraceRenders` and `TracePauses`: L renders, (L-1)/1000 pauses, nothing else) |
| `Pipeline.RenderPosition` | src/index.ts:43-50 | frame i is rendered at position i + i/1000; the effect before it is the pause exactly when i is throttled, else frame i-1's render |
| `Pipeline.TracePauses` | src/index.ts:43-46 | producing L frames pauses (L-1)/1000 times |
| `Pipeline.TraceRenders` | src/index.ts:42-53 | the renderer receives every position once, in play order, each written to its own index's path |
| `Pipeline.TraceWrites` | src/index.ts:42-53 | the paths written while producing L frames are exactly the paths of frames 0 .. L-1 |
| `Pipeline.RunSpec` | src/index.ts:23-65 | a run exits with status 1, no images and no effects exactly when the record is missing or unparsable, and otherwise encodes `./temp/temp_%d.png` at the rate for its number of images; a run over an existing folder has no effects |
| `Pipeline.Session.constructor` | src/index.ts:34 | a run starts with no images and no effects |
| `Pipeline.Session.ProduceFrames` | src/index.ts:42-53 | images gain the paths of frames 0 .. L-1 in order; the effects gain exactly the production trace |
| `Pipeline.Session.ReuseFrames` | src/index.ts:56-57 | images gain the listed names joined to the temp folder, in listing order; nothing is rendered |
| `Pipeline.Session.Run` | src/index.ts:23-65 | the outcome, the images and the effects of a run are those of `RunSpec` |
| `Pipeline.AbortsBeforeAnyWork` | src/index.ts:24-32 | a missing record or a parse failure exits with status 1 and its message before any folder is created or frame rendered |
| `Pipeline.FreshFolderRendersEveryPosition` | src/index.ts:36-60 | without a temp folder the run creates it first, renders every position in order to its own index, pauses (L-1)/1000 times and encodes at the rate for L frames |
| `Pipeline.ExistingFolderRendersNothing` | src/index.ts:54-60 | with a temp folder nothing is created, paused or rendered; images are the listing joined to the folder, same length and order; the rate is that of the listing |
| `Pipeline.SecondRunReuses` | src/index.ts:36-60 | a first run creates the folder and writes exactly the files of frames 0 .. L-1; a second run whose listing names exactly those files, each once, has no effects, collects L images and encodes exactly as the first |
| `Scenarios.FpsExamples` | src/index.ts:60 | (300, 30) gives 10, (301, 30) gives 10, (40, 4) gives 10, (1, 1) gives 1, (0, 30) and (1, 3) give 0 |
| `Scenarios.ThrottleExamples` | src/index.ts:43-46 | 2500 frames pause twice, right before frames 1000 and 2000; 1000 or fewer never; 1001 once |
| `Scenarios.FortyMovesInFourSeconds` | src/index.ts:36-65 | a 40-move game over 4 seconds renders 40 frames in order without a pause and encodes at 10 frames per second |

## Left out

- File-system calls (`existsSync`, `readFile`, `mkdir`, `readdir`, src/index.ts:24-25, 36-37, 56) are not performed: existence is a boolean input, the listing a given sequence, and folder creation is recorded as an effect. A failing `readFile`, `mkdir` or `readdir` (an unhandled rejection in the program) is not modelled.
- PGN parsing by chess.js (src/index.ts:27-32, 40) is a foreign library: its result is an input, either the position after each move or the string form `${err}` of the error it threw.
- Rendering by chess-image-generator (src/index.ts:39, 48, 50) is recorded as a `Render(position, path)` effect; a render that fails (an unhandled rejection) is not modelled.
- The encoder (fluent-ffmpeg, src/index.ts:63-79): only its input pattern and frame rate are modelled, as the `Encode` outcome; the codec and pixel-format options, the output path and the `start`, `progress`, `error` and `end` callbacks are not. Only the percentage formula of the progress callback is kept (`Rates.Percent`).
- The two-second `wait` (src/index.ts:11, 45) and `await` suspension are recorded as `Pause(2000)` effects; timing and concurrency are not modelled.
- Console output through chalk is not modelled; `process.exit(1)` after a message (src/index.ts:18-21) is the `Exit(1, message)` outcome.
- The location of the script (`__dirname`, src/index.ts:13-16, 35) is not modelled: the temp folder is a parameter, `path.join` is taken as joining with `/` without normalising `..`, and `join(__dirname, "../temp/temp_<i>.png")` is taken to equal the temp folder joined with `temp_<i>.png`. The encoder's pattern is relative to the working directory (`./temp/`) while frames are written to `join(__dirname, "../temp")`, one level above the script's folder; `FrameNaming.EncoderReadsFrame` matches the file names, not the two folders.
- The entry-point guard (src/index.ts:82) is not modelled.
- Rates.RoundHalfUp: exact integer arithmetic replaces floating-point division followed by `Math.round`; the two agree for the frame counts and durations of real games, but not for quotients too large for a double.
- Rates.Fps: `desiredTime` is required to be a positive whole number of seconds; the configuration file that supplies it is not part of this model.
- Rates.Percent: computed exactly; the program divides in floating point before multiplying by 100, so at an exact half (for example 57 of 200 frames, exactly 28.5%) the program can round down where the exact computation rounds up.
- Text.ReplaceFirst: the replacement is taken literally; JavaScript's expansion of `$$`, `$&`, `` $` `` and `$'` in a replacement string is not modelled, since the program only replaces with the empty string (src/index.ts:31).
- FrameNaming.ExpandPattern: only patterns whose one `%` starts one `%d` are modelled, as the program's pattern (src/index.ts:64) is; ffmpeg's `%%`, zero-padded `%0Nd` and its refusal of a second `%d` are not.
- Strings are sequences of Dafny characters, not UTF-16 code units; `indexOf` and `replace` are modelled on characters.
