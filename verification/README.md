# Screen capture and streaming core of the macOS remote-control server

This project models, in Dafny, the pure logic inside the screen-capture and
screen-streaming code of the `server-control` service of macController, and
proves properties of it. The model has three parts.

- **Still capture** (`server-control/src/screen-utils.ts`)
  - `removeRowPadding`: strip the alignment padding after each row of a raw
    robotjs frame (`RowPadding`).
  - `getDisplayScaling`: read the main display's logical and pixel
    resolution strings from the `system_profiler` report. Take the first
    `N x M` of each and divide; every failure falls back to scale 1
    (`DisplayScaling`).
  - The arithmetic of `captureAndProcessScreenshot`: the padding is
    `byteWidth - width * 4`, the logical size is `floor(physical / scale)`,
    the option defaults are quality 80 and compression level 6, and every
    error gets the prefix "截图处理失败: " (`Screenshot`).
- **Streaming** (`server-control/src/video-utils.ts`)
  - The ffmpeg AVFoundation device-list parser. It is a fold over the report
    lines that tracks the current section, and it matches
    `\[.*\] \[(\d+)\] (.*)` with JavaScript's leftmost, greedy semantics
    (`DeviceReport`).
  - The choice of the second video device.
  - The `VideoStreamer` state (`isStreaming`, `command`) as driven by
    `startStream`, `stopStream`, `isStreamingActive` and the encoder's
    start, error and end events.
  - The constructor defaults fps 30, quality (CRF) 23 and resolution
    "native" (`VideoStreamer`).
- **Server routes** (`server-control/src/server.ts`)
  - The primary-display choice of `/screen/info`.
  - The capture check and the BGRA→RGBA loop of `/screen/analyze`
    (`ServerScreen`).

Shared pieces:

- `Base` holds `Option`, `Result`, bytes, and `Array.prototype.find`.
- `Text` holds digit runs, `String.prototype.includes`, the JavaScript
  `trim` whitespace set, and `split('\n')` with its inverse.

The model replaces the program's environment with inputs:

- the robotjs frame;
- the parsed display report (`None` when running or parsing the profiler throws);
- `systeminformation`'s display list;
- the ffmpeg listing output (or what running it threw);
- the outcome of the encoder's test run;
- the image library, as a function that accepts or rejects a request.

Scales are exact rationals `Ratio(physical, logical)`. The logical size is
`floor(W * logical / physical)` on integers, written `LogicalExtent`.

The source divides by the scale unguarded, and `LogicalExtent` follows it
rather than forbidding the case:

- A logical count of 0 makes the scale `Infinity`. `Math.floor(W / Infinity)`
  is 0, and the integer formula gives the same 0.
- A pixel count of 0 makes the scale 0, so the size is `Infinity` or `NaN`.
  The model returns `NonFinite` here.

No precondition excludes either case.

## Model

| member | source | states |
|---|---|---|
| Base.FindFirst | server-control/src/screen-utils.ts:37 | `find` returns the first element satisfying the test. It returns nothing exactly when no element does. |
| RowPadding.RemoveRowPadding | server-control/src/screen-utils.ts:58-72 | The result is exactly `width*height*bytesPerPixel` bytes long. For every row `y` and offset `i` inside the row, output byte `y*rowBytes+i` is input byte `y*(rowBytes+paddingBytes)+i`. |
| RowPadding.RemoveRowPaddingAtProduct | server-control/src/screen-utils.ts:58-72 | The same copy in closed form. For row `y < height` and offset `i < width*bytesPerPixel`, output byte `y*(width*bytesPerPixel)+i` is input byte `y*(width*bytesPerPixel+paddingBytes)+i`, and both positions are in range. |
| RowPadding.StripRowsAt | server-control/src/screen-utils.ts:66-70 | Row by row, byte `i` of row `y` of the copy is byte `i` of row `y` of the padded input, and both positions are in range. |
| RowPadding.NoPaddingIsPrefix | server-control/src/screen-utils.ts:65-70 | With zero padding the output is the first `width*height*bytesPerPixel` bytes of the input. |
| RowPadding.RemovePaddedRows | server-control/src/screen-utils.ts:66-70 | Start from packed rows and insert padding of arbitrary content after each row. Removing that padding gives the packed rows back, so no padding byte reaches the output. |
| RowPadding.StripDependsOnlyOnRows | server-control/src/screen-utils.ts:66-70 | Bytes after the last row's pixels never affect the result. |
| DisplayScaling.MatchAt | server-control/src/screen-utils.ts:39-40 | A match of `(\d+) x (\d+)` at a position consists of two non-empty, maximal digit runs around " x ". |
| DisplayScaling.FindFrom | server-control/src/screen-utils.ts:39-40 | The expression's match is the leftmost position where it matches. When nothing is found, it matches nowhere. |
| DisplayScaling.FindDimensions | server-control/src/screen-utils.ts:39-40 | `match` returns nothing exactly when the expression matches at no position. Otherwise it returns the groups of the leftmost matching position. |
| DisplayScaling.GetDisplayScaling | server-control/src/screen-utils.ts:32-55 | The scale is 1 on each axis in these cases: no report (any exception), no display flagged `spdisplays_yes`, a missing resolution string, or a string with no `N x M`. Otherwise each axis is the first pixel-string number over the first logical-string number. |
| DisplayScaling.ScalingOfMainDisplay | server-control/src/screen-utils.ts:37-50 | Let the first main display read `Lw x Lh ...` and `Pw x Ph ...`. Then its scale is exactly `Pw/Lw` and `Ph/Lh`: the printed numbers are parsed back. |
| DisplayScaling.FindDimensionsOfResolutionText | server-control/src/screen-utils.ts:39-40 | Take a digit-free lead, two printed numbers and a tail that does not continue the second number. The expression finds exactly those two numbers. |
| Screenshot.LogicalExtent | server-control/src/screen-utils.ts:99-100 | `Math.floor(physical / scale)` is finite exactly when the scale's pixel count is positive. It is then the greatest `n` with `n * scale <= physical`. |
| Screenshot.ProportionalScaleDivides | server-control/src/screen-utils.ts:99-100 | When the physical size is `k` times the logical one, `Math.floor(physical / scale)` is `physical / k` rounded down. |
| Screenshot.UniformScaleDividesSize | server-control/src/screen-utils.ts:97-100 | On a display scaled by a whole factor `k` on both axes, a successful capture reports a logical size of `width / k` by `height / k`, rounded down. |
| Screenshot.PackedPixels | server-control/src/screen-utils.ts:103-109 | Padding `byteWidth - width*4` with 4 bytes per pixel gives `width*height*4` bytes. Row `y` of these is read at stride `byteWidth`. |
| Screenshot.CaptureAndProcessScreenshot | server-control/src/screen-utils.ts:75-139 | A capture without an image fails with "截图处理失败: 屏幕截图捕获失败" and the image library is never asked. Every error carries that prefix. Otherwise the library receives the packed pixels, the logical size as the resize target, and quality 80 and compression level 6 unless given. The call succeeds exactly when the library accepts, and then reports both sizes and the scale. |
| Screenshot.UnknownScaleKeepsSize | server-control/src/screen-utils.ts:97-100 | When the display query fails, the scale is 1 and the logical size equals the physical size. |
| Screenshot.UnpaddedFramePassesThrough | server-control/src/screen-utils.ts:103-109 | A frame with `byteWidth == width*4` is handed on as the first `width*height*4` bytes of its buffer. |
| DeviceReport.TailAt | server-control/src/video-utils.ts:49-50 | The part `] [(\d+)] (.*)` of the expression matches a non-empty digit index and a name that runs to the end of the line. |
| DeviceReport.MatchFrom | server-control/src/video-utils.ts:49-50 | A match attempt at a position succeeds only on a `[`, and its index group is a non-empty digit string. |
| DeviceReport.MatchFromWhenTail | server-control/src/video-utils.ts:49-50 | Conversely, a `[` followed on the same line by a tail `] [digits] ` always gives a match there. Together with `MatchFrom` and `MatchFromIsGreedy`, a position matches exactly when both hold. |
| DeviceReport.MatchFromIsGreedy | server-control/src/video-utils.ts:49-50 | The groups of a match at a position are read at the last tail position on the line: no later position up to the line end has a tail. |
| DeviceReport.FirstMatchFrom | server-control/src/video-utils.ts:49-50 | The search returns the leftmost position at or after the start where the expression matches. When it returns nothing, the expression matches at no such position. |
| DeviceReport.MatchDeviceLine | server-control/src/video-utils.ts:49-50 | `line.match` returns `null` exactly when the expression matches at no position. A match carries a non-empty digit index. |
| DeviceReport.MatchDeviceLineIsLeftmost | server-control/src/video-utils.ts:49-50 | A match returns the groups of the leftmost position where the expression matches. |
| DeviceReport.HeaderKind | server-control/src/video-utils.ts:45-48 | A line opens the video section exactly when it contains "AVFoundation video devices:". It opens the audio section exactly when it lacks that text and contains "AVFoundation audio devices:". |
| DeviceReport.LastTail | server-control/src/video-utils.ts:49-50 | The greedy `\[.*\]` backtracks to the last position on the line where `] [digits] ` matches. |
| DeviceReport.Classify | server-control/src/video-utils.ts:49-55 | A line read as a device entry carries the `(\d+)` group: a non-empty digit string. |
| DeviceReport.EntryExactly | server-control/src/video-utils.ts:45-56 | A line is a device entry exactly when it is no header and matches with a non-empty name group. The entry then holds that index and the trimmed name. |
| DeviceReport.EmptyNameIsNoEntry | server-control/src/video-utils.ts:49-57 | A device line whose name group is empty is matched but yields no record, because `matches[2]` is falsy. |
| DeviceReport.VideoHeaderFirst | server-control/src/video-utils.ts:45-48 | A line that holds both headers opens the video section, because the video test comes first. |
| DeviceReport.ScanLines | server-control/src/video-utils.ts:40-60 | The loop over the lines with the current section yields the records of the section fold, in line order. |
| DeviceReport.ParseDevices | server-control/src/video-utils.ts:40-60 | The parsed list has no more records than the output has lines. Every record comes from an entry line under a header, and carries that line's index, trimmed name and section. |
| DeviceReport.ListAVFoundationDevices | server-control/src/video-utils.ts:37-64 | The loop over the lines returns exactly what `ListDevices` states for the same output. |
| DeviceReport.ListDevices | server-control/src/video-utils.ts:37-64 | A failure of the listing command is rethrown with the prefix "获取AVFoundation设备列表失败: ". Any output, even one that matches nothing, parses to a list and raises no error. |
| DeviceReport.DeviceProvenance | server-control/src/video-utils.ts:44-58 | Every record comes from an entry line whose index and trimmed name it carries. Its type is that of the last header seen before that line. |
| DeviceReport.EntryIsListed | server-control/src/video-utils.ts:44-58 | Every entry line that follows some header yields a record. |
| DeviceReport.AtMostOnePerLine | server-control/src/video-utils.ts:44-58 | There are never more records than lines. |
| DeviceReport.AllListed | server-control/src/video-utils.ts:44-58 | Every record is listed from some entry line under a header. |
| DeviceReport.LineOf | server-control/src/video-utils.ts:44-58 | Each record has a source line before the end of the scan. That line is an entry with the record's index and trimmed name, in the section the record names. |
| DeviceReport.LinesIncrease | server-control/src/video-utils.ts:44-58 | Records come out in line order, one per line: a later record comes from a strictly later line. |
| DeviceReport.EntryHasDevice | server-control/src/video-utils.ts:44-58 | Every entry line that follows a header is the source line of some record. |
| DeviceReport.NoHeaderNoDevices | server-control/src/video-utils.ts:42-49 | Lines before any section header never produce a record. |
| DeviceReport.DeviceLineRoundTrip | server-control/src/video-utils.ts:49-50 | Take a line `[tag] [index] name` whose name has no `]`. The expression recovers exactly `index` and `name`. |
| DeviceReport.ClassifyDeviceLine | server-control/src/video-utils.ts:45-56 | A line `[tag] [index] name` with no colon, a non-empty name and no `]` in the name is an entry with that index and the trimmed name. |
| DeviceReport.TypicalListing | server-control/src/video-utils.ts:40-60 | A listing of a video header, two entries, an audio header and one entry parses to two video records and one audio record, in order. |
| DeviceReport.ColonFreeIsNoHeader | server-control/src/video-utils.ts:45-48 | A line without a colon is not a header. |
| Text.SplitJoinLines | server-control/src/video-utils.ts:40 | `split('\n')` inverts joining lines that hold no newline. |
| Text.SplitLines | server-control/src/video-utils.ts:40 | `split('\n')` yields at least one piece, and no piece holds a newline. Joining the pieces with newlines gives the input back. |
| Text.Trim | server-control/src/video-utils.ts:54 | `trim()` removes exactly the leading and trailing JavaScript whitespace. |
| VideoStreamer.SettingsOf | server-control/src/video-utils.ts:66-73 | An absent option takes its default (fps 30, quality 23, resolution "native"), and a given one is kept. |
| VideoStreamer.NewStreamer | server-control/src/video-utils.ts:31-35 | A new streamer has no command and is not streaming. |
| VideoStreamer.VideoDevicesMembers | server-control/src/video-utils.ts:107 | The filter keeps exactly the video devices. |
| VideoStreamer.VideoDevices | server-control/src/video-utils.ts:107 | The filter yields only video devices and never more than it was given. |
| VideoStreamer.VideoDevicesCount | server-control/src/video-utils.ts:107 | The filter keeps one device per listing position that holds a video device, so its length is the number of such positions. |
| VideoStreamer.OneVideoDeviceTooFew | server-control/src/video-utils.ts:107-113 | A listing with exactly one video device, anywhere among audio devices, gives "need at least 2, found 1". |
| VideoStreamer.OneListedVideoDeviceFails | server-control/src/video-utils.ts:91-113 | An idle streamer with a sized main display, whose parsed listing holds exactly one video device, fails with "需要至少2个视频设备，当前找到1个". |
| VideoStreamer.SelectDevice | server-control/src/video-utils.ts:108-118 | No video device gives the "no capture device" error, and one gives "need at least 2, found 1". Otherwise the second video device is chosen. |
| VideoStreamer.SecondVideoDeviceChosen | server-control/src/video-utils.ts:107-118 | The chosen device is the second device of type video in listing order, whatever audio devices lie between. |
| VideoStreamer.StartStream | server-control/src/video-utils.ts:75-198 | While streaming, the call returns and changes nothing. It never sets the flag or changes the settings. A failure before the test run leaves the state unchanged. A launch, or a failed test run, leaves the configured command in place. |
| VideoStreamer.LaunchConditions | server-control/src/video-utils.ts:75-198 | The encoder is started exactly when: the streamer is idle, a main display with a non-zero size exists, the listing succeeds with two or more video devices, and the test run ends. The command then reads device `index + ":none"` at the logical size, with the configured fps and CRF. |
| VideoStreamer.FailureOrder | server-control/src/video-utils.ts:90-118 | Each failed check produces its own error, in the order the checks are made. |
| VideoStreamer.OnEvent | server-control/src/video-utils.ts:146-167 | Encoder events change only the flag, never the command or the settings. |
| VideoStreamer.StopStream | server-control/src/video-utils.ts:200-205 | The command is killed exactly when the streamer is streaming and has a command. The flag stays set only when it was set without a command. |
| VideoStreamer.FlagFollowsLastSetter | server-control/src/video-utils.ts:146-164 | Consider any sequence of calls and events. The flag is the value left by the last step that sets it: true after a start event; false after an error event, an end event or `stopStream`. `startStream` never sets it. A streaming streamer always has a command. |
| VideoStreamer.FreshStreamerFlag | server-control/src/video-utils.ts:207-209 | On a new streamer, `isStreamingActive()` is true exactly when the last flag-setting step was a start event. |
| VideoStreamer.StopAlwaysClears | server-control/src/video-utils.ts:200-205 | On every reachable state, `stopStream` leaves the flag cleared. |
| ServerScreen.PrimaryIndex | server-control/src/server.ts:218 | The primary display is the first display flagged main. If no display is main, it is the first display, and with no display there is none. |
| ServerScreen.PrimaryIsStreamedDisplay | server-control/src/server.ts:218 | When a main display exists, the info route reports the same display whose size the streamer uses. |
| ServerScreen.BgraToRgba | server-control/src/server.ts:284-295 | The output has `width*height*4` bytes. For each pixel it takes red from byte 2, keeps green at byte 1, takes blue from byte 0 and keeps alpha at byte 3. |
| ServerScreen.ConvertCapture | server-control/src/server.ts:284-295 | The stride-aware conversion of a capture yields `width*height*4` bytes. |
| ServerScreen.ConvertImageData | server-control/src/server.ts:284-295 | The nested loop over rows and columns writes the four bytes at `(y*width+x)*4` and produces exactly the channel swap of the buffer read as packed rows. |
| ServerScreen.ConvertTwiceRestores | server-control/src/server.ts:288-294 | The swap is an involution: converting twice restores the pixels. |
| ServerScreen.ConvertCaptureReadsRows | server-control/src/server.ts:284-295 | The stride-aware conversion takes each pixel from the same pixel of the captured rows, read at stride `byteWidth`, with red and blue swapped. |
| ServerScreen.UnpaddedCaptureAgrees | server-control/src/server.ts:284-295 | Without row padding, the route's loop and the stride-aware conversion agree. |
| ServerScreen.AsWrittenReadsPadding | server-control/src/server.ts:286-295 | On a padded frame the route's loop, and so `AnalyzeCapture`, reads the first row's padding as the second row's pixel, while the stride-aware conversion reads the second row. |
| ServerScreen.AnalyzeCapture | server-control/src/server.ts:269-295 | No capture, or a capture without an image, fails with "屏幕截图捕获失败" before any conversion. Otherwise the result is the route's loop run on the captured buffer as it stands: `width*height*4` bytes, each pixel read at `(y*width+x)*4` with red and blue swapped, whatever `byteWidth` is. |
| ServerScreen.AnalyzeUnpaddedIsCorrect | server-control/src/server.ts:284-295 | When the capture has no row padding, the route's output equals the stride-aware conversion of the captured rows. |

## Left out

- I/O and foreign libraries are not modelled:
  - `execSync` and the JSON parse of the profiler output: the report is an input, `None` when either throws.
  - `systeminformation`, and robotjs capture: inputs. Neither call's exception is modelled; both are taken to return:
    - when `systeminformation.graphics()` rejects (video-utils.ts:91), `startStream` rejects with that library error, which no `StartError` stands for;
    - when `robot.screen.capture()` throws (screen-utils.ts:92), the screenshot fails with "截图处理失败: " and the thrown message. The `None` capture only covers a missing frame or image, whose message is always "屏幕截图捕获失败".
  - sharp's resize, colour space and PNG encoding: an `encode` function parameter.
  - canvas PNG streaming, directory creation, file names and `existsSync`.
- The `outputDir` and `fileName` options are not modelled: they only name the file.
- The `resolution` streaming option is stored but never read by the source, so only its default is modelled.
- Only the fields of the ffmpeg command that the logic chooses are modelled: input device, size, fps and CRF. The fixed option strings, the cloned test run, `run`, `pipe`, the SIGKILL and the output stream are left out as subprocess I/O.
- A test run that never ends is not modelled; the test run either ends or fails.
- The `if (!this.command)` branch after the test run (video-utils.ts:186-191) is not modelled because it cannot be reached: the command was assigned just before.
- Events carry no command identity: an event from an earlier command is treated like one from the current command. `FlagFollowsLastSetter` assumes that no event arrives before a command exists.
- Floating point is not modelled: scales are exact rationals. `parseInt` above 2^53, which loses precision in JavaScript, is read exactly.
- RowPadding.RemoveRowPadding: requires the buffer to hold every row's pixels and the padding to be non-negative. Node's `Buffer.copy` would silently clip a short read, and a negative padding would overlap rows; robotjs frames have neither.
- Screenshot.CaptureAndProcessScreenshot: requires a well-formed frame (`byteWidth >= width*4` and every row present), for the same reason.
- ServerScreen.PrimaryIndex: an empty display list is `None`. The route would throw a `TypeError` reading `undefined` and answer 500.
- VideoStreamer.StartStream: each call is treated as atomic across its awaits. In the source a second `startStream` that begins before the first sets `isStreaming` passes the guard at video-utils.ts:76 and overwrites `this.command` at line 122. Both calls then run and pipe that later command (line 194). `Launched(cmd)` and `LaunchConditions` hold only when calls do not interleave.
- ServerScreen.AnalyzeCapture: stops at the converted pixels. The route then writes the PNG and calls an external image-analysis model; every error becomes the fixed 500 answer "Screen analysis failed".
- Strings are sequences of Unicode characters rather than UTF-16 code units. The headers and the literal parts of the expression are ASCII, so header tests and matches find the same lines and the same groups.
- The rest of the server is not part of this model. It has no logic of the kind modelled here:
  - the Express routing, Swagger setup, and the mouse and keyboard routes;
  - glm-image.ts (an HTTP call to an image model);
  - browser-controller.ts (a puppeteer wrapper);
  - the control panel (browser UI).
- Region-bounded capture, automatic encoder retry and chunk fan-out to subscribers have no code in these files, so nothing models them.

## Findings

| source | as written | input that shows it | evidently intended | confidence | as-written member | corrected member |
|---|---|---|---|---|---|---|
| server-control/src/server.ts:286-295 | The BGRA→RGBA loop reads pixel `(x, y)` at `(y*width + x)*4` and ignores the capture's row stride `byteWidth`, which screen-utils.ts strips explicitly. | A 1×2 frame with `byteWidth` 8 and buffer `[10,20,30,40, 0,0,0,0, 50,60,70,80]`. The second pixel comes out `0,0,0,0` instead of `70,60,50,80`. | Strip the row padding first, then swap the channels, so that each pixel is read at stride `byteWidth`. | not executed; high that padded frames are misread | ServerScreen.AsWrittenReadsPadding | ServerScreen.ConvertCaptureReadsRows |
