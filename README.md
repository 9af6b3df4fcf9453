# Real-time OCR to audio: decision logic

This project models the decision logic of a Streamlit app, `streamlit_app.py`.
The app reads a WebRTC camera stream, runs EasyOCR on a slider-chosen region of
the latest frame, and plays `sounds/<file>` when the recognised text is a key of
the `mapping.csv` table. Six small pieces are modelled and proved:

- **ROI resolution** (`roi.dfy`, module `Roi`). Slider percentages become a
  pixel rectangle of the frame. The rectangle is clamped to the frame, and the
  whole frame is used when it is empty.
- **Text selection** (`text.dfy`, module `Text`). Python's `str.strip()` is
  modelled with the `str.isspace()` character set. The adopted text is the first
  OCR string that is non-empty once stripped.
- **Debounce** (`detection.dfy`, module `Detection`). The OCR worker is a class
  holding `last_detect` / `last_detect_time`. The shared slot
  `detected_text_shared` is a class of its own. One `Step` is one worker
  iteration after the OCR call.
- **Playback** (`playback.dfy`, module `Playback`). The monitor is a class
  holding `last_played` and the mapping. One `Step` is one monitor tick. `Decide`
  is the pure decision it is proved against. `Run` strings ticks together so
  that the "once a minute" rule can be proved over many ticks.
- **Frame mailbox** (`mailbox.dfy`, module `FrameMailbox`). This is the
  `queue.Queue(maxsize=1)` into which `recv` drops the old frame before putting
  the new one.
- **Mapping fold** (`mapping.dfy`, module `Mapping`). The rows of `mapping.csv`
  are folded into a map.

Time is a `real` number of seconds. The clock, OCR results and file existence
are parameters: `fileExists` is a function parameter standing for
`os.path.exists`. Frames are opaque values of a type parameter. A failed
`readtext` call is the `OcrFailed` input.

Three points about what the code does, which a reader might expect otherwise:

- The debounce window applies to the worker's last *detection*, not to the
  last *played* text. The monitor has its own fixed 60-second replay rule.
- There is no schedule that is cleared. The slot keeps its text. An unmapped
  text, or one whose file is missing, is looked at again on every tick. A missing
  file gives a warning on every such tick; it is not dropped after one warning.
- A missing `mapping.csv` gives the empty mapping, never an error.

## Model

| member | source | states |
|---|---|---|
| `Text.LeadingSpaces` | streamlit_app.py:103 | the count is the longest all-whitespace prefix: every character before it is whitespace, and the next one is not |
| `Text.TrailingSpaces` | streamlit_app.py:103 | the count is the longest all-whitespace suffix: every character after the cut is whitespace, and the one before it is not |
| `Text.Strip` | streamlit_app.py:103 | `strip()` returns text with no whitespace at either end, no longer than the input; it is empty exactly when the input is all whitespace |
| `Text.StripOfPadded` | streamlit_app.py:103 | for any stripped core `r` padded with whitespace `p` and `q`, `strip(p + r + q) == r`: strip removes exactly the padding |
| `Text.StripIdempotent` | streamlit_app.py:103 | stripping an already stripped string changes nothing |
| `Text.FirstNonEmpty` | streamlit_app.py:101-106 | the selection is `None` exactly when every result strips to empty; a selected text is non-empty and has no surrounding whitespace |
| `Text.FirstNonEmptyAt` | streamlit_app.py:101-106 | when `k` is the first index whose stripped result is non-empty, the selection is that stripped result |
| `Text.SelectText` | streamlit_app.py:101-106 | the selection loop returns the first non-empty stripped result, or `None` |
| `Roi.Scale` | streamlit_app.py:72-75 | the pixel count is the floor of `size * pct / 100`: `100 * px <= size * pct < 100 * (px + 1)` |
| `Roi.ResolveRoi` | streamlit_app.py:71-82 | for any non-negative percentages a crop satisfies `0 <= x1 < x2 <= w` and `0 <= y1 < y2 <= h`, so it is never empty and never leaves the frame |
| `Roi.ClampIsNoOp` | streamlit_app.py:76-78 | within the slider ranges the clamp moves nothing: when the requested width and height are at least one pixel, the result is the crop of exactly the requested percentages of the frame |
| `Roi.FullFrameIff` | streamlit_app.py:77-80 | within the slider ranges the whole frame is used exactly when the requested width or height is zero pixels |
| `Detection.Accepts` | streamlit_app.py:110-112 | only a selected text is accepted; a text different from the last detection is always accepted; the same text within `debounce` seconds of it never is |
| `Detection.DetectionSlot.constructor` | streamlit_app.py:47 | the shared slot starts with no text and timestamp 0 |
| `Detection.OcrWorker.constructor` | streamlit_app.py:62-63 | the worker starts with no last detection at time 0, matching the empty slot |
| `Detection.OcrWorker.Step` | streamlit_app.py:93-117 | a failed OCR call or an empty selection changes nothing; a selection equal to the last one within `debounce` seconds changes nothing; otherwise the worker's last detection and the slot both become (selection, `now`); the slot always mirrors the worker's last detection, which is stripped and non-empty |
| `Playback.AudioPath` | streamlit_app.py:192 | `os.path.join("sounds", f)` ends with `f`; a relative `f` lands under `sounds/`, and an absolute one is kept as is |
| `Playback.Decide` | streamlit_app.py:181-201 | a tick does something exactly when the text is non-empty, `now - ts >= play_delay`, the text differs from the last played one or more than 60 s have passed, and the text maps to a non-empty file name; it plays when that file exists and warns with its path when it does not |
| `Playback.After` | streamlit_app.py:195-196 | `last_played` becomes the tick's (text, `now`) on a play and is otherwise unchanged |
| `Playback.Run` | streamlit_app.py:180-202 | one outcome per tick; the first tick is decided against the starting `last_played`, and each later one against `last_played` as the earlier ticks left it |
| `Playback.QuietTicksKeepLast` | streamlit_app.py:195-196 | ticks that play nothing do not move `last_played`, so a later tick is decided against the same `last_played` |
| `Playback.NoReplayWithinMinute` | streamlit_app.py:188 | two plays of the same text with no play between them are more than 60 s apart |
| `Playback.Monitor.constructor` | streamlit_app.py:171 | `last_played` starts as no text at time 0 |
| `Playback.Monitor.Step` | streamlit_app.py:181-201 | the tick's outcome is `Decide` applied to the slot; `last_played` becomes (text, `now`) on a play and stays unchanged on a warning or no action; only a mapped text is ever recorded as played |
| `FrameMailbox.Offer` | streamlit_app.py:143-151 | one `recv` leaves the newest `capacity` frames, including the new one |
| `FrameMailbox.OfferAllKeepsNewest` | streamlit_app.py:143-151 | after any run of `recv` calls the queue holds the newest `capacity` frames in arrival order |
| `FrameMailbox.SingleSlotHoldsLatest` | streamlit_app.py:46 | with `maxsize=1`, after any non-empty run of `recv` calls the queue holds exactly the newest frame |
| `FrameMailbox.LatestQueue.constructor` | streamlit_app.py:46 | the queue starts empty with the given capacity |
| `FrameMailbox.LatestQueue.Full` | streamlit_app.py:144-147 | a full queue is non-empty, so the `get_nowait` after `full()` never meets an empty queue |
| `FrameMailbox.LatestQueue.Recv` | streamlit_app.py:143-151 | the queue never exceeds its capacity; with capacity 1 it holds exactly the new frame afterwards |
| `FrameMailbox.LatestQueue.Take` | streamlit_app.py:66-68 | an empty queue yields nothing (the timeout); otherwise the oldest frame is removed and returned |
| `Mapping.FoldRows` | streamlit_app.py:20 | the keys of the mapping are exactly the texts of the rows |
| `Mapping.LastRowWins` | streamlit_app.py:20 | a text maps to the audio of the last row that names it |
| `Mapping.LoadMapping` | streamlit_app.py:17-21 | a missing `mapping.csv` gives the empty mapping; otherwise the keys are the row texts |

## Left out

- Streamlit page setup, widgets and the status messages (streamlit_app.py:10-41, 169-176, 213). Slider and number-input values are parameters. The ROI slider ranges are the precondition of `Roi.ClampIsNoOp` and `Roi.FullFrameIff`; `Roi.ResolveRoi` takes any non-negative percentages.
- WebRTC streaming and `av` frame conversion (streamlit_app.py:129-164). A frame is an opaque value, and the ROI function takes its width and height.
- EasyOCR reader construction and `readtext` (streamlit_app.py:54-58, 93-98). These are foreign calls. Their strings, or their failure, are an input.
- `cv2.resize` and its scale factor, and `cv2.rectangle` (streamlit_app.py:85-90, 140). These are floating-point image operations.
- The unclamped rectangle drawn in `recv` (streamlit_app.py:135-140). It is display only.
- Roi.ResolveRoi: `int(w * (x0 / 100.0))` is modelled as the exact `w * x0 / 100`. This idealises the floating-point product, and the model does not claim bit-exact agreement with it.
- Threads, `detected_lock`, `stop_flag`, `time.sleep`, and the `webrtc_ctx.state.playing` loop condition (streamlit_app.py:48-49, 64, 120, 123-124, 179-180, 202-211). Each loop iteration is one method call. Interleavings are not modelled.
- Playback.Monitor.Step: the source calls `time.time()` three times in one tick (lines 186, 188, 196). The model uses one `now` for all three.
- Playback.Run: the file-existence predicate is fixed over a run of ticks. On disk, files could appear or vanish between ticks.
- `pd.read_csv`, and the `str()` conversion of CSV cells (streamlit_app.py:19-20). For example, pandas turns an empty cell into `nan`. Rows arrive as pairs of strings.
- `st.audio` and `st.warning` output. They are the `Play` and `MissingFile` outcomes.
