# gif-for-cli, modelled in Dafny

A Dafny model of the core of gif-for-cli. The program turns a GIF or video into animated
text-mode art: ffmpeg decodes the input into numbered JPEG frames, and each frame is cut into
cells of `cell_width × cell_height` pixels. Every cell is rendered three ways:

- a `nocolor` glyph, chosen by bucketing grey levels into `NOCOLOR_CHARS`;
- a `256`-colour escape token;
- a 24-bit `truecolor` escape token.

The text frames are cached on disk, then either played back in the terminal or rendered to
pictures and exported. The model covers:

- the palette "top two" search of `top_2_colors` (module `X256Fgbg`);
- the cell renderers, block averaging, grey level and dual-tone token of
  `generate/utils.py` (module `CellRender`);
- the input-source classification and Tenor lookup logic (module `InputSource`);
- `convert_frame`, with the trim, the row-major block walk, the line assembly and the
  grey-level bucketiser (modules `Generate`, `Buckets`, `NocolorFrame`);
- `_run_ffmpeg`'s command and error-output parser, `_save_config`, the one-process
  `_convert_frames` and `generate` (module `GenerateRun`);
- memoisation, display-mode detection, pool-size validation, cache paths, the sorted
  directory listing, the progress reporter and the one-process `pool_abstraction` (module
  `Utils`);
- playback (module `Display`);
- the export escape-sequence scanner, its crop box, the frame list and the ffmpeg report
  (module `Export`). A round trip from `convert_frame`'s truecolor file through the scanner
  back to the cell colours is in module `TruecolorRoundTrip`.

Modules `Strings`, `Sorting`, `Effects` and `Wrappers` hold Python's string operations,
`sorted`, and the event log. Side effects (writes to stdout, flushes, sleeps, file writes,
worker calls) are returned as a list of `Event`s. Methods that loop in the source are
methods with loop invariants, and each is proved equal to a specification function whose
properties are lemmas.

Conventions:

- A grey level is the integer `r + g + b`, three times `get_gray`'s mean. It orders and
  equates colours exactly as the mean does (`CellRender.GrayKeyOrder`).
- Averages are exact rationals, rounded half to even as Python 3's `round` does.
- Durations are integer hundredths of a second.
- The dual-tone glyph index is `floor(best * (K - 1) / second)`, which is the source's
  `floor(best / second * (K - 1))` evaluated without floating-point error.

## Model

| member | source | states |
|---|---|---|
| X256Fgbg.SquaredDistance | gif_for_cli/generate/x256fgbg_utils.py:5 | every palette distance is below the sentinel `256**2*3`, and it is 0 exactly for the same colour |
| X256Fgbg.Top2Colors | gif_for_cli/generate/x256fgbg_utils.py:8-20 | the loop ends with `best` and `second` equal to `Best`/`Second` of the distance list: the `<=` comparison and the `second = best` hand-over |
| X256Fgbg.Top2Step | gif_for_cli/generate/x256fgbg_utils.py:15-18 | one loop turn: an entry at or below `best` becomes best and the old best becomes second; otherwise nothing changes |
| X256Fgbg.Top2ColorsProperties | gif_for_cli/generate/x256fgbg_utils.py:8-20 | empty palette: both stay the sentinel. Otherwise `best` is the minimum distance at its highest index; `second.distance >= best.distance`; best at entry 0 leaves `second` the sentinel; a tie makes `second` carry the minimum too |
| X256Fgbg.BestExtendLower | gif_for_cli/generate/x256fgbg_utils.py:15-17 | a new entry at or below the best becomes best (ties go to the later index), and `second` becomes the old best |
| X256Fgbg.BestExtendHigher | gif_for_cli/generate/x256fgbg_utils.py:15 | a new entry above the best changes neither record |
| X256Fgbg.LastArgMin | gif_for_cli/generate/x256fgbg_utils.py:15 | the index `best` ends on holds the minimum, and every later entry is strictly larger |
| X256Fgbg.SecondAtLeastBest | gif_for_cli/generate/x256fgbg_utils.py:16-17 | `second.distance >= best.distance` always |
| X256Fgbg.SecondOnTie | gif_for_cli/generate/x256fgbg_utils.py:15-17 | when the minimum occurs at another index, `second` has the minimum distance too and lies before `best` |
| X256Fgbg.SecondBeforeBest | gif_for_cli/generate/x256fgbg_utils.py:15-17 | when best is not entry 0, `second` lies before best and is no farther than any entry before best |
| X256Fgbg.SecondIsPreviousBest | gif_for_cli/generate/x256fgbg_utils.py:16-17 | with distances 5, 1, 3 the loop returns entry 0 as `second` although entry 2 is nearer: `second` is the previous best, not the second-nearest |
| CellRender.Avg | gif_for_cli/generate/utils.py:30-32 | `avg` lies between the smallest and largest item |
| CellRender.Gray | gif_for_cli/generate/utils.py:35-36 | `get_gray` is the mean of the three channels, between 0 and 255 |
| CellRender.GrayKeyOrder | gif_for_cli/generate/utils.py:35-36 | comparing `r+g+b` keys is comparing grey levels, for both `<=` and `==` |
| CellRender.RoundHalfEven | gif_for_cli/generate/utils.py:73 | `round(num/den)` is within half a unit of the quotient, and a tie goes to the even integer |
| CellRender.RoundBetween | gif_for_cli/generate/utils.py:73 | rounding a mean of values in `[lo, hi]` stays in `[lo, hi]` |
| CellRender.BlockPixels | gif_for_cli/generate/utils.py:68-72 | the block lists `cell_height * cell_width` pixels |
| CellRender.BlockPixelsAt | gif_for_cli/generate/utils.py:68-72 | pixel `(x + col, y + row)` sits at position `row * cell_width + col`: `sy` outer, `sx` inner |
| CellRender.BlockPixelsFrom | gif_for_cli/generate/utils.py:68-72 | every listed pixel lies in `[x, x+cell_width) × [y, y+cell_height)` |
| CellRender.RoundedMean | gif_for_cli/generate/utils.py:73 | a channel's rounded mean is a channel value between that channel's min and max, within half a unit of the exact mean |
| CellRender.AvgForEmMean | gif_for_cli/generate/utils.py:67-73 | each channel of `get_avg_for_em` is that channel's own block mean, rounded, and lies between that channel's min and max |
| CellRender.AvgForEmUniform | gif_for_cli/generate/utils.py:67-73 | a block of one colour averages to exactly that colour |
| CellRender.GrayBlockExample | tests/generate/test_utils.py:111-117 | 2 white and 2 black pixels give 128 in every channel (127.5 rounds to even) |
| CellRender.SeparateChannelsExample | tests/generate/test_utils.py:131-151 | (0,128,255) twice and (255,128,0) twice give (128,128,128) |
| CellRender.NoSemicolonInDigits | gif_for_cli/generate/utils.py:63-64 | the numbers in a token contain no `;`, `m` or ESC, so the token's sequence ends at its `m` |
| CellRender.Get256CellExample | gif_for_cli/generate/utils.py:39-40 | `get_256_cell(0, 128, 255)` is `ESC[38;5;33m#` when `from_rgb` picks entry 33 |
| CellRender.GetTruecolorCellExample | gif_for_cli/generate/utils.py:63-64 | `get_truecolor_cell(0, 128, 255)` is `ESC[38;2;0;128;255m#` |
| CellRender.GlyphIndex | gif_for_cli/generate/utils.py:53-54 | the ratio glyph index lies in `[0, K-1]`, and it is `K-1` when best and second are equal |
| CellRender.FgbgGlyph | gif_for_cli/generate/utils.py:45-54 | best distance 0 gives a space; otherwise a glyph of `X256FGBG_CHARS`, the last one on a tie |
| CellRender.Get256FgbgCell | gif_for_cli/generate/utils.py:43-60 | the token is the BG escape for best, the FG escape for second, then the glyph, using `top_2_colors`' records |
| CellRender.ExactPaletteColourIsBlank | gif_for_cli/generate/utils.py:45-47 | a colour that is itself a palette entry has best distance 0 and gets the blank glyph |
| InputSource.QuotePlus | gif_for_cli/generate/utils.py:90 | `quote_plus` output holds only URL-safe characters, so the phrase cannot break the query string |
| InputSource.QuotePlusDigits | gif_for_cli/generate/utils.py:90 | a string of digits is quoted unchanged |
| InputSource.QuotePlusDecodes | gif_for_cli/generate/utils.py:96 | percent-decoding a `quote_plus` result gives the input's UTF-8 bytes |
| InputSource.Utf8RoundTrip | gif_for_cli/generate/utils.py:96 | decoding the UTF-8 encoding of a string gives the string back |
| InputSource.QuotePlusRoundTrip | gif_for_cli/generate/utils.py:96 | `unquote_plus(quote_plus(s)) == s` |
| InputSource.Interpret | gif_for_cli/generate/utils.py:100-113 | success exactly for a JSON body with no `error` and some results, giving the first media URL; each error path raises its own message |
| InputSource.ProcessInputSource | gif_for_cli/generate/utils.py:76-114 | a Tenor page URL with a non-numeric id fails with `Bad GIF URL.` before any call; an existing path or http(s) URL is returned after one existence check; otherwise one request to the API URL, interpreted as above |
| InputSource.CheckedPath | gif_for_cli/generate/utils.py:77-86 | the checked path is the input, or the id of a Tenor page URL |
| InputSource.DigitsAreNotUrls | gif_for_cli/generate/utils.py:79-88 | a run of digits is neither a Tenor page URL nor an http(s) URL |
| InputSource.TenorPageIsId | gif_for_cli/generate/utils.py:77-80 | a Tenor page URL with a numeric id behaves exactly like the id on its own |
| InputSource.GifIdRequest | gif_for_cli/generate/utils.py:88-98 | an all-digit input requests `gifs?key=<key>&ids=<id>` |
| InputSource.TrendingRequest | gif_for_cli/generate/utils.py:91-93 | an empty input requests `trending?key=<key>&limit=1` |
| InputSource.SearchQuery | gif_for_cli/generate/utils.py:94-96 | a non-empty, non-numeric input uses the `search` endpoint with `limit=1&q=` and the quoted phrase |
| InputSource.SearchRequest | gif_for_cli/generate/utils.py:94-98 | any other non-empty input uses `search`, the URL ends with `&q=` and the quoted phrase, and the phrase reads back from it |
| Buckets.Distinct | gif_for_cli/generate/__init__.py:114-116 | the ordered dictionary's keys are exactly the levels, each once |
| Buckets.DistinctOfSorted | gif_for_cli/generate/__init__.py:115-116 | filled from the sorted list, the keys are strictly ascending |
| Buckets.CountsPositive | gif_for_cli/generate/__init__.py:114-116 | every key counted from the cells has at least one cell |
| Buckets.CountsSum | gif_for_cli/generate/__init__.py:114-116 | the counts add up to the number of cells |
| Buckets.CountLevels | gif_for_cli/generate/__init__.py:114-116 | the counting loop yields exactly the distinct levels and their counts |
| Buckets.AssignBuckets | gif_for_cli/generate/__init__.py:117-125 | the walk maps exactly the keys, each to the bucket `BucketOf` gives it |
| Buckets.BucketOfFirst | gif_for_cli/generate/__init__.py:117-124 | the darkest level gets bucket 0 |
| Buckets.BucketOfStep | gif_for_cli/generate/__init__.py:120-124 | consecutive levels differ by at most one bucket |
| Buckets.BucketOfMonotone | gif_for_cli/generate/__init__.py:120-124 | a lighter level never gets a lower bucket |
| Buckets.WalkInvariant | gif_for_cli/generate/__init__.py:120-125 | every closed bucket held more than `N/M` cells |
| Buckets.BucketOfBound | gif_for_cli/generate/__init__.py:113-133 | with every level present and `N` cells in all, the bucket index stays below `M`, so `NOCOLOR_CHARS[...]` is in range |
| Buckets.GlyphIndexAt | gif_for_cli/generate/__init__.py:133 | the glyph index of every cell is below `M` |
| Buckets.BucketMapCovers | gif_for_cli/generate/__init__.py:114-133 | the dictionary built by the two loops has every cell's level, mapped to its glyph index |
| Buckets.GlyphIndexInRange | gif_for_cli/generate/__init__.py:133 | every cell's glyph index is a valid position in `NOCOLOR_CHARS` |
| Buckets.GlyphIndexMonotone | gif_for_cli/generate/__init__.py:115-125 | equal levels share a glyph, and a lighter level never gets an earlier one |
| Buckets.GlyphIndexDarkest | gif_for_cli/generate/__init__.py:117-124 | the darkest cells get glyph 0 |
| Buckets.DistinctLevelsBuckets | gif_for_cli/generate/__init__.py:113-125 | with all levels distinct, level `q*(N/M+1)+r` gets glyph `q`: each bucket holds `N/M+1` levels |
| Buckets.HundredDistinctLevels | gif_for_cli/generate/__init__.py:113-125 | 100 distinct levels over 10 glyphs: glyph 0 takes levels 0-10 and glyph 9 only level 99 |
| Generate.CellSpan | gif_for_cli/generate/__init__.py:88-92 | the trimmed side is the largest multiple of the cell size not above the image side, and `cols = width / cell_width` |
| Generate.FlattenAt | gif_for_cli/generate/__init__.py:98-104 | the grey list holds row after row: entry `c` of row `r` at `r * cols + c` |
| Generate.GraysAt | gif_for_cli/generate/__init__.py:98-104 | `chars_nocolor[r * cols + c]` is the grey key of cell `(r, c)`'s averaged colour |
| Generate.AllGraysLength | gif_for_cli/generate/__init__.py:98-104 | there is exactly one grey entry per cell: `rows * cols` |
| Generate.RenderCell | gif_for_cli/generate/__init__.py:102-106 | one cell's grey key and its `256` and truecolor tokens |
| Generate.RenderRow | gif_for_cli/generate/__init__.py:101-106 | the inner loop yields the row's grey keys and tokens, in column order |
| Generate.RenderColourLines | gif_for_cli/generate/__init__.py:98-109 | the outer loop yields all grey keys row after row, and one `256` and one truecolor line per row of cells |
| Generate.RowEnd | gif_for_cli/generate/__init__.py:135 | `(i + 1) % cols == 0` exactly at the last cell of a row |
| Generate.RenderNocolorLines | gif_for_cli/generate/__init__.py:127-137 | the glyph loop yields the `nocolor` lines: one per row of `cols` glyphs, none when `cols` is 0 |
| Generate.ConvertFrame | gif_for_cli/generate/__init__.py:80-147 | for positive cell sizes `convert_frame` writes the nocolor, 256 and truecolor files in that order, with `\n`-joined lines, and nothing else; a zero cell size raises `ZeroDivisionError` when the image is trimmed, before any write; a negative one writes the three files with no cell in them |
| Generate.BlankLines | gif_for_cli/generate/__init__.py:98-109 | with a negative `cell_width` the outer loop yields one empty line per row of the trimmed height, and with a negative `cell_height` no line, as Python's `range` with a negative step from 0 is empty |
| Generate.BlankFilesText | gif_for_cli/generate/__init__.py:140-147 | for a negative cell size the nocolor file is empty and the 256 and truecolor files hold only the `rows - 1` newlines between their empty rows |
| NocolorFrame.CellGlyphIndex | gif_for_cli/generate/__init__.py:133 | the bucket of every cell is below `len(NOCOLOR_CHARS)` |
| NocolorFrame.NocolorCell | gif_for_cli/generate/__init__.py:127-141 | the nocolor text has a line per row of cells and a glyph per cell, and cell `(r, c)`'s glyph is the one its bucket selects |
| NocolorFrame.NocolorBrighter | gif_for_cli/generate/__init__.py:113-133 | a lighter cell never gets an earlier glyph |
| NocolorFrame.NocolorDarkest | gif_for_cli/generate/__init__.py:113-133 | the darkest cells of a frame get the first glyph |
| GenerateRun.DecodeCommandScale | gif_for_cli/generate/__init__.py:57-66 | the command is `ffmpeg -i <file> -vf <filter> <jpg dir>/%04d.jpg`, and the filter's `w=` and `h=` read back as `cols*cell_width` and `rows*cell_height` |
| GenerateRun.ScaleFilterOptions | gif_for_cli/generate/__init__.py:58-64 | the filter splits on `:` into exactly the scale width, the scale height and the aspect-ratio option |
| GenerateRun.FrameName | gif_for_cli/generate/__init__.py:154 | the frame name is a dot-free prefix of the file name |
| GenerateRun.FrameNameOfJpg | gif_for_cli/generate/__init__.py:153-156 | `<stem>.jpg` has frame name `<stem>`, and `convert_frame` opens that same file |
| GenerateRun.DecodedFrameFile | gif_for_cli/generate/__init__.py:65 | frame `n` written as `%04d.jpg` is read back under the name `'%04d' % n` |
| GenerateRun.FrameMatchSpaces | gif_for_cli/generate/__init__.py:74 | `frame=\s*\d+` matches exactly when some whitespace run after `frame=` is followed by a digit |
| GenerateRun.Search | gif_for_cli/generate/__init__.py:74-75 | `re.search` finds the leftmost match, or reports that there is none anywhere |
| GenerateRun.FrameCount | gif_for_cli/generate/__init__.py:74 | the frame count is read exactly when `frame=` with digits occurs; otherwise `group` on `None` raises |
| GenerateRun.SecondsField | gif_for_cli/generate/__init__.py:75-76 | `float` accepts the `SS.hh` field exactly when its middle character is a point, digit, underscore or exponent mark |
| GenerateRun.Duration | gif_for_cli/generate/__init__.py:75-76 | without a `time=` match, `groups` on `None` raises |
| GenerateRun.ReadReport | gif_for_cli/generate/__init__.py:71-77 | the result exists exactly when both fields parse, and it holds both values |
| GenerateRun.DurationOfField | gif_for_cli/generate/__init__.py:75-76 | the first `time=HH:MM:SS.hh` reads back as `HH*3600 + MM*60 + SS.hh` seconds |
| GenerateRun.FrameCountOfField | gif_for_cli/generate/__init__.py:74 | the first `frame=` field, after any whitespace, reads back as its number |
| GenerateRun.ReadReportExample | tests/generate/test.py:66-104 | the test's progress line `frame=   11 ... time=00:00:01.10 ...` gives 11 frames and 1.1 seconds |
| GenerateRun.ConfigLookup | gif_for_cli/generate/__init__.py:39-54 | the record is written to `<dir>/config.json` and has exactly seven distinct keys: the five copied options (`None` when missing), `num_frames` and `seconds` |
| GenerateRun.GenerateConfig | gif_for_cli/generate/__init__.py:179-183 | the record `generate` saves holds the options it was given and the decoded frame count and duration, and has no `rows` entry |
| GenerateRun.ConvertEach | gif_for_cli/generate/__init__.py:161-164 | the generator runs `convert_frame` on each name in turn |
| GenerateRun.ConvertFrames | gif_for_cli/generate/__init__.py:150-165 | the one-process `_convert_frames` is the progress report over `convert_frame` on each sorted `.jpg` frame name |
| GenerateRun.FrameFilesQuiet | gif_for_cli/generate/__init__.py:140-147 | a frame's conversion writes nothing to stdout and writes its three text files |
| GenerateRun.FramesLogOutput | gif_for_cli/generate/__init__.py:158-165 | stdout receives the messages `Processed k/n frames...` for `k = 0..n`, separated by the clear-line sequence, then `\n`, with one flush per message |
| GenerateRun.FramesLogFiles | gif_for_cli/generate/__init__.py:153-165 | the files written are, frame by frame in listing order, each frame's three text files, and nothing else |
| GenerateRun.GenerateCache | gif_for_cli/generate/__init__.py:179-185 | `generate` runs the decoder command; if its error output does not parse, `generate` stops there, after ffmpeg has written the `%04d.jpg` frames but before the config record and the text frames; otherwise the config record and the frames' log follow |
| Utils.Memo.Call | gif_for_cli/utils.py:28-34 | the result is always `f(args)`; a cached argument returns the stored value without calling `f`; a new one calls `f` once and is cached |
| Utils.MemoTwice | gif_for_cli/utils.py:22-36 | two calls with the same argument give `f(a)` both times and call `f` once |
| Utils.DefaultDisplayModeChoice | gif_for_cli/utils.py:39-47 | `truecolor` iff either lower-cased variable mentions it; `256fgbg` iff not and either mentions `256`; `nocolor` otherwise |
| Utils.DefaultDisplayModeEmpty | gif_for_cli/utils.py:40-47 | with no variables set, the mode is `nocolor` |
| Utils.TruecolorWins | gif_for_cli/utils.py:42-44 | a `COLORTERM` mentioning truecolor in any case selects `truecolor` |
| Utils.PoolType | gif_for_cli/utils.py:50-56 | `None` passes through; an `int()` failure is the error; a value `<= 0` fails with `Minimum cpu_pool_size is 1`; any other value is returned as an integer |
| Utils.PoolTypeOfDecimal | gif_for_cli/utils.py:50-56 | every positive decimal is accepted as itself, and `0` is rejected |
| Utils.PoolTypeExamples | gif_for_cli/utils.py:50-56 | `' 2'` and `'1_0'` are accepted as 2 and 10; `'1__0'` fails with `int()`'s message |
| Utils.OutputDirnames | gif_for_cli/utils.py:173-191 | the keys are exactly `.` and the five subdirectories; `.` is the cache path built from the options; each subdirectory is that path plus `/<key>` |
| Utils.OutputDirnamesDistinct | gif_for_cli/utils.py:186-190 | no two display modes share a directory |
| Utils.KeptNamesMembers | gif_for_cli/utils.py:196-198 | a name is listed exactly when a file entry ending in `.<ext>` carries it |
| Utils.SortedFilenames | gif_for_cli/utils.py:194-199 | the listing holds the kept names, each as often as listed, in ascending order |
| Utils.LogFrameProgress | gif_for_cli/utils.py:202-208 | the reporter's loop matches its specification: message 0, then per result the work, the clear-line and the next message, then `\n` |
| Utils.ProgressOutput | gif_for_cli/utils.py:202-208 | with quiet work, stdout receives the messages 0..n joined by the clear-line sequence |
| Utils.ProgressFlushes | gif_for_cli/utils.py:207 | one flush per message |
| Utils.PoolAbstractionSequential | gif_for_cli/utils.py:211-219 | the one-process branch calls the worker on every item once, in order, inside the progress report with `total = len(items)` |
| Utils.InvokedProgress | gif_for_cli/utils.py:215-219 | after turn `k` the worker has run on exactly the first `k - 1` items |
| Display.DisplayTxtFrames | gif_for_cli/display.py:22-45 | the playback loop produces exactly `DisplayEvents`: the frames pass by pass (none for a negative `num_loops`), the reset, and the extra newline when interrupted |
| Display.NegativeLoops | gif_for_cli/display.py:24-38 | a negative `num_loops` fails the loop test at once: the playback writes only the reset and flushes |
| Display.PlayedSleeps | gif_for_cli/display.py:34 | one sleep per frame shown |
| Display.ShowOutput | gif_for_cli/display.py:29-34 | a frame is written after the cursor-up prefix for the previous line count, then `\n` |
| Display.PlayedOutput | gif_for_cli/display.py:23-34 | the text so far: the frames shown, each ending in `\n`; no prefix before the first frame, and before every later one the cursor-up code once per line of `txt_frames[0]` |
| Display.DisplayOutput | gif_for_cli/display.py:24-38 | with `num_loops = L > 0` and no interrupt: the frames `L` times with the cursor-up separator, then the reset; `L × len(frames)` sleeps |
| Display.InterruptOutput | gif_for_cli/display.py:39-43 | when interrupted at sleep `i`: the frames up to that one, then the reset and `\n`; `i + 1` sleeps |
| Display.GetTxtFramesReplace | gif_for_cli/display.py:48-52 | frame `i` is sorted `.txt` file `i` with every placeholder replaced by the string `cell_char` (`cell_char.join(text.split(placeholder))`); no placeholder is left unless `cell_char` holds one; a one-character `cell_char` leaves every other character where it was |
| Display.Play | gif_for_cli/display.py:55-58 | `display` plays the frames `get_txt_frames` reads |
| Export.ParseInts | gif_for_cli/export.py:77 | `[int(c) ...]` succeeds exactly when every part parses, and then holds the parsed values in order |
| Export.ExportTxtFrame | gif_for_cli/export.py:32-109 | the scanner's loops produce the specified picture: canvas, draws and crop box; an `int()` failure is the error |
| Export.ScanRow | gif_for_cli/export.py:57-102 | the inner loop over one line's characters ends in exactly the scan `ScanLine` specifies, or in its `int()` error |
| Export.ScanCellToken | gif_for_cli/export.py:58-102 | an escape sequence whose parameters apply cleanly, then one visible character: the pen settles on the new colours and one cell is drawn in them |
| Export.CollectSequence | gif_for_cli/export.py:60-82 | inside an open sequence, a run of characters with no ESC and no `m` is appended to the collected sequence and nothing is drawn (an ESC would restart the sequence, an `m` would end it) |
| Export.ScanEscape | gif_for_cli/export.py:58-80 | ESC, a body and `m` apply the body to the colours, settle the pen and draw nothing |
| Export.ScanVisible | gif_for_cli/export.py:83-102 | a visible character is drawn once at the current column in the current colours, and the column advances |
| Export.ScanPlainText | gif_for_cli/export.py:83-102 | outside a sequence, text without ESC (such as a `cell_char` of several characters) is drawn one cell per character, in order, and the column advances by its length |
| Export.ScanLineAppend | gif_for_cli/export.py:57-102 | scanning a concatenation is scanning each part in turn |
| Export.ApplyTruecolor | gif_for_cli/export.py:75-77 | `[38;2;r;g;b` sets the foreground to exactly `(r, g, b)` |
| Export.Apply256Foreground | gif_for_cli/export.py:72-74 | `[38;5;N` sets the foreground to `to_rgb(N)` |
| Export.Apply256Background | gif_for_cli/export.py:69-71 | `[48;5;N` sets the background to `to_rgb(N)` |
| Export.ScanTruecolorCell | gif_for_cli/export.py:55-102 | scanning a `get_truecolor_cell` token recovers its RGB as the foreground and draws the placeholder in it |
| Export.Scan256Cell | gif_for_cli/export.py:55-102 | scanning a `get_256_cell` token sets the foreground to the chosen palette entry and draws one cell |
| Export.ScanFgbgToken | gif_for_cli/export.py:55-102 | scanning a dual-tone token sets the background to best's entry and the foreground to second's, and draws the glyph |
| Export.TxtFramesFiles | gif_for_cli/export.py:112-116 | `_get_txt_frames` lists `dir/<name>` for every `.txt` file, in lexicographic order |
| Export.TxtFrameMember | gif_for_cli/export.py:112-116 | a path is listed exactly when it names a `.txt` file of the directory |
| Export.ExportPathAbsolute | gif_for_cli/export.py:120-121 | under an absolute working directory the path is absolute and ends with the given name; an absolute name is unchanged, so the conversion is idempotent |
| Export.FfmpegReportCases | gif_for_cli/export.py:137-140 | return code 0 writes `Exported to:\n<path>\n`; any other code writes `ffmpeg encountered an error: <err>\n` |
| Export.RunFfmpeg | gif_for_cli/export.py:119-140 | the command is `ffmpeg -y -framerate <r> -i <dir>/%04d.txt.png <path>`, and the one write is the report |
| Export.ExportFrames | gif_for_cli/export.py:143-153 | `export_txt_frame` runs once per sorted `.txt` frame, in order, inside the progress report, and then the ffmpeg report follows |
| TruecolorRoundTrip.ReplacedTruecolorFile | gif_for_cli/export.py:48 | replacing the placeholder in a frame's truecolor file changes only its cell characters |
| TruecolorRoundTrip.ScanTruecolorRows | gif_for_cli/export.py:55-105 | scanning rows of truecolor tokens draws every cell in order in its own colour on black, and the column at the length of the last row scanned |
| TruecolorRoundTrip.ExportTruecolorText | gif_for_cli/export.py:45-108 | such a text exports successfully: the draws are the rows' cells, and the crop is the last row's length × the row count |
| TruecolorRoundTrip.ExportTruecolorFrame | gif_for_cli/export.py:45-108 | exporting `convert_frame`'s truecolor file crops to the frame's cell grid |
| TruecolorRoundTrip.FrameDrawAt | gif_for_cli/export.py:83-102 | draw `r * cols + c` is cell `(r, c)`, in its exact averaged colour on black |
| Strings.SplitJoin | gif_for_cli/export.py:55 | splitting `\n`-joined lines recovers the lines when none contains a newline |
| Strings.ReplaceRemovesPlaceholder | gif_for_cli/display.py:50 | after replacement no placeholder remains |
| Strings.ReplaceIsJoinSplit | gif_for_cli/display.py:50 | `s.replace(p, w) == w.join(s.split(p))` for a one-character `p` |
| Strings.ParseInt | gif_for_cli/utils.py:53 | `int(s)` of a string of decimal digits is their value; a successful parse needs text left after stripping whitespace; a failure carries `int()`'s `invalid literal for int() with base 10` message quoting the input |
| Strings.ParseIntIgnoresSpace | gif_for_cli/utils.py:53 | `int()` succeeds on `s` exactly when it succeeds on `s.strip()`, with the same value |
| Strings.ParseIntOfNegative | gif_for_cli/export.py:77 | a minus sign followed by the digits of `n` reads back as `-n` |
| Strings.ParseIntSpaceDigit | gif_for_cli/utils.py:53 | `int(' ' + c)` for any digit `c` is the digit's value, as `int(' 2') == 2`: leading whitespace is stripped |
| Strings.ParseIntUnderscoreDigits | gif_for_cli/utils.py:53 | `int(a + '_' + b)` for any digits `a`, `b` is the two-digit number `10a + b`, as `int('1_0') == 10`: a single underscore between digits is skipped |
| Strings.ParseIntDoubleUnderscore | gif_for_cli/utils.py:53 | `int(a + '__' + b)` for any digits `a`, `b` fails, as `int('1__0')` does, with the `invalid literal for int() with base 10` message quoting its argument |
| Sorting.SortBy | gif_for_cli/utils.py:197 | `sorted(..., key=name)` is ordered by key and a permutation of its input |

## Left out

- gif_for_cli/constants.py is not part of this model. `NOCOLOR_CHARS`, `X256FGBG_CHARS`,
  `STORED_CELL_CHAR`, `ANSI_RESET` and `ANSI_CURSOR_UP` are parameters, and the glyph sets are
  required to be non-empty.
- The x256 library: the palette, `from_rgb` and `to_rgb` are parameters. The distance is taken
  to be the sum of squared channel differences.
- PIL: the image is a grid of pixels given to `convert_frame` through a `load` parameter.
  Fonts, drawing and saving are represented by the draw records and crop box of a `Picture`.
- ffmpeg, `subprocess`, `requests`, `os.path.exists`, `os.scandir`, `os.getcwd`, file reading
  and `time.sleep` are parameters or events: the error output, the return code, the directory
  listing, the file contents and the API response are inputs.
- JSON: the saved configuration is a record of key/value pairs in insertion order, not JSON
  text. `seconds` is kept in hundredths, so the float `repr` is not modelled.
- GenerateRun.SecondsField: `float()` on the `SS.hh` field is modelled for the shapes ffmpeg
  writes and the ones the regular expression admits. Float rounding of the duration is not
  modelled.
- Python's Unicode notions of a digit (`\d`, `str.isdigit`, `int()`) are modelled on ASCII
  digits, and `str.lower` only on ASCII letters. `int()`'s stripping of whitespace, its sign
  and its single underscores between digits are modelled.
- Strings.ParseInt: the error text quotes its argument between single quotes; the escaping
  `repr` applies to quotes, backslashes and unprintable characters is not modelled.
- The `utf8` decoding of ffmpeg's error output is not modelled; it is text from the start.
- The multiprocessing `Pool` branches of `pool_abstraction` and `_convert_frames` are not
  modelled; only the one-process branches are.
- `to_rgb`'s `memoize` cache in export.py is not modelled separately: memoisation returns
  `f(args)` (Utils.Memo.Call), so the scanner uses `to_rgb` directly.
- Display.DisplayTxtFrames: an interrupt is modelled only during a sleep call. With
  `num_loops == 0` and no interrupt the playback never ends, so the method requires that the
  playback is bounded or interrupted.
- `get_parser` (argparse configuration), execute.py, setup.py, the legacy generate.py and
  `__main__.py` are outside the core.
- Export.FfmpegReportCases: in the source `err` is the bytes object `communicate` returns, and
  `format` writes its `repr` (`b'...'`). The model's `err` parameter is that formatted text.
- The float framerate text `str(1.0 / seconds_per_frame)` is a parameter of Export.RunFfmpeg.
- The `get_256fgbg_cell` tokens are modelled, but `convert_frame` writes no `256fgbg` file,
  as in the code.
- Generate.ConvertFrame: the `ZeroDivisionError` for a zero cell size is recorded by its class
  name; its message text, which differs between Python versions, is not modelled.
- GenerateRun.ConvertFrames: requires positive cell sizes, although argparse passes any integer
  for `-cw`/`-ch`. With a zero size the first frame's `ZeroDivisionError` ends the progress
  report after its first message; with a negative size every frame writes the cell-less files
  Generate.ConvertFrame states. Neither whole-pipeline run is modelled.
- GenerateRun.GenerateCache: requires positive cell sizes. With a zero size the source runs
  ffmpeg and saves the config record before the first frame raises `ZeroDivisionError`; with a
  negative size it converts every frame into cell-less files. Neither run is modelled here;
  the saved record (GenerateRun.GenerateConfig) is stated for any integer sizes.
- GenerateRun.ConvertFrames: frame names are related to the decoder's `%04d.jpg` files by
  GenerateRun.DecodedFrameFile. No lemma states that ffmpeg numbers frames in display order,
  since ffmpeg is outside the model.

## Where the code and its description differ

The model follows the code in each case below.

- On a tie, `top_2_colors` keeps the later palette index (`<=`), not the lower one
  (X256Fgbg.BestExtendLower).
- The bucketiser closes a bucket when it already holds more than `N/M` cells. With 100
  distinct levels and 10 glyphs each bucket holds 11 levels, not 10, and the last glyph gets
  one level (Buckets.HundredDistinctLevels).
- `convert_frame` writes three files (nocolor, 256, truecolor), while its test expects four
  opens (Generate.ConvertFrame).
- With `cols == 0` the nocolor loop never closes a line, so the nocolor file is empty
  (Generate.RenderNocolorLines).
- `re.search` reads the first `frame=` and the first `time=` in the error output, not the last
  progress report (GenerateRun.Search).
