# yoloCounter: the detection-to-count core in Dafny

yoloCounter reads webcam frames, runs a YOLOv4-tiny network on each one, and counts
objects whose box centre lies inside a fixed region of interest (ROI),
`cv::Rect(200, 100, 300, 300)`. This project models the two pure parts of the frame loop in
`src/yoloCounter.cpp`:

- **Decoding** (`Decoder`, lines 92-113). Each candidate row has an integer centre, size, class id and
  confidence. A row is kept only when its confidence is strictly above 0.5. Its box has
  `left = centerX - width/2` and `top = centerY - height/2`, using C++ truncating division. Kept rows
  are appended, in input order, to three parallel vectors: class ids, confidences and boxes.
- **ROI counting** (`RoiCounter`, lines 120-133). The state is a `map<int,bool>` keyed by the
  suppressor's frame-local box index, plus two counters. Each frame resets `currentObjectCount` to 0.
  Then, for every index the suppressor kept, the box centre is computed with truncating halving and
  tested with OpenCV's half-open `Rect::contains`. An inside centre whose entry was absent or false
  sets the entry to true and increments `totalObjectCount`. Every inside centre increments
  `currentObjectCount`. An outside centre sets the entry to false.
- **The loop** (`Pipeline`, lines 67-133). Starting from an empty map and zero counters, the
  counting step is folded over a given sequence of frames.

`Geometry` holds the shared pieces: `Rect`, `Point`, `TruncDiv2` (C++ `/ 2` on `int`), `Center`,
`Contains` (the half-open test, isolated in one predicate) and the constant `Roi`.
`Scenarios` holds small concrete runs.

Where the program departs from an idealised crossing tracker, with persistent identities, matching, eviction, a boundary-inclusive ROI test and no count on first sighting, this model follows the program:

- The map is keyed by the position of a box in the current frame's vector, not by a persistent
  object identity. There is no matching between frames and no eviction. As a result, an object that
  stays inside is counted again when its index changes (`Scenarios.IndexShiftRecounts`). A new object
  that appears inside at an index still marked true is not counted (`Scenarios.StaleIndexNotRecounted`).
- An index seen for the first time with its centre inside is counted, because an absent entry reads
  as false.
- Confidence exactly 0.5 is dropped (`>`, line 100). The ROI's right and bottom edges are outside.

## Model

| member | source | states |
|---|---|---|
| Geometry.TruncDiv2 | src/yoloCounter.cpp:105-106 | `n / 2` truncates toward zero: the remainder `n - 2q` is 0 or 1 for non-negative `n` and 0 or -1 for negative `n` |
| Geometry.RoiBounds | src/yoloCounter.cpp:66 | the fixed ROI admits exactly the centres with 200 <= x < 500 and 100 <= y < 400 |
| Decoder.BoxOf | src/yoloCounter.cpp:105-110 | the box keeps the row's width and height, and its centre recomputed as at line 123 is exactly the row's centre, for any integer width and height |
| Decoder.Decode | src/yoloCounter.cpp:92-113 | the three vectors always have equal length, and there are no more entries than rows |
| Decoder.Selected | src/yoloCounter.cpp:100 | the reference list of kept row positions only holds positions of the input |
| Decoder.SelectedExact | src/yoloCounter.cpp:100-111 | a row is kept if and only if its confidence is strictly above 0.5, and kept rows stay in input order |
| Decoder.DecodeMatchesSelected | src/yoloCounter.cpp:108-110 | entry k of the class ids, confidences and boxes all come from the k-th kept row |
| Decoder.DecodeRows | src/yoloCounter.cpp:93-112 | the inner loop over one tensor's rows extends vectors equal to `Decode` of the rows already visited to vectors equal to `Decode` of those rows followed by this tensor's rows |
| Decoder.DecodeOutputs | src/yoloCounter.cpp:92-113 | the nested loop over output tensors and rows yields the three vectors of the reference filter: equal length, one entry per kept row, entry k from the k-th kept row |
| RoiCounter.Visit | src/yoloCounter.cpp:122-133 | one index sets only its own map entry, to whether its centre is inside; the total grows by one exactly on an absent or false entry turning true; the current count grows exactly when inside |
| RoiCounter.VisitAll | src/yoloCounter.cpp:121-133 | over the index list the total never decreases, grows by at most the list length and by at most the inside count; the map gains exactly the listed keys; every listed key ends marked with its centre's membership; unlisted keys keep their value |
| RoiCounter.Step | src/yoloCounter.cpp:120-133 | one frame: the same guarantees, with the total's growth bounded by this frame's current count |
| RoiCounter.VisitAllCurrent | src/yoloCounter.cpp:121-130 | visiting the list adds to the current count the number of list positions whose centre is inside |
| RoiCounter.StepCurrent | src/yoloCounter.cpp:120-130 | after a frame the current count equals the number of processed positions with centre inside, whatever it was before |
| RoiCounter.VisitAllTotal | src/yoloCounter.cpp:125-129 | with distinct indices, the total grows by the number of positions inside whose entry was absent or false before |
| RoiCounter.StepTotal | src/yoloCounter.cpp:125-129 | with distinct indices, a frame adds exactly the number of inside indices whose entry was absent or false before the frame, which is at most the number of indices |
| RoiCounter.VisitAllNoRecount | src/yoloCounter.cpp:125-129 | indices already marked true that are inside cause no increment, even when listed twice |
| RoiCounter.StepNoRecount | src/yoloCounter.cpp:125-129 | a frame whose inside indices were all already marked true leaves the total unchanged |
| RoiCounter.EmptyFrame | src/yoloCounter.cpp:120-133 | a frame with no indices leaves the map and total unchanged and sets the current count to 0 |
| Pipeline.Run | src/yoloCounter.cpp:67-133 | after any stream of frames the total is at most the number of indices processed over all frames |
| Pipeline.RunMonotone | src/yoloCounter.cpp:71-133 | the total after a prefix of the stream is at most the total after any longer prefix |
| Pipeline.RunCurrent | src/yoloCounter.cpp:67-130 | an empty stream leaves the initial state; otherwise the current count describes the last frame alone |
| Scenarios.EnterAndLeave | src/yoloCounter.cpp:120-133 | a box seen outside, then centred at (350, 250), then outside again gives total 1 and current count 0 at the end |
| Scenarios.IndexShiftRecounts | src/yoloCounter.cpp:126-128 | an object that stays inside but moves to another index is counted a second time |
| Scenarios.StaleIndexNotRecounted | src/yoloCounter.cpp:126-129 | a box that appears inside at an index still marked true is not counted |

## Left out

- `load_class_list` (lines 9-21): file reading; class labels only feed the display.
- `load_net` (lines 24-47): loading the network and choosing the CPU or CUDA backend is foreign library configuration.
- Webcam opening and frame capture (lines 55-77): device I/O. The loop is a fold over a given sequence of frames, so a failed capture is simply the end of that sequence.
- `blobFromImage` and `net.forward` (lines 80-86): neural inference. The network outputs are inputs to the model.
- `cv::minMaxLoc` (lines 95-98) and the float scaling with `static_cast<int>` (lines 101-104): a library argmax and floating point. Each row's class id, confidence and already-scaled integer centre and size are inputs.
- `static_cast<float>(confidence)` (line 109): float rounding is not modelled. Confidences are reals and the stored confidence equals the row's.
- `cv::dnn::NMSBoxes` (line 117): a library call. Its result is an arbitrary list of indices; the model only requires each index to address a box of the frame.
- Drawing, label lookup, `imshow` and the ESC exit (lines 135-156): presentation and UI.
- Integer width: coordinates and counters are unbounded integers. The 32-bit `int` overflow of `centerX - width/2`, of `box.x + box.width/2` and of `totalObjectCount++` is undefined behaviour in C++ and is not modelled.
- RoiCounter.StepTotal and RoiCounter.VisitAllTotal: the exact growth of the total is stated only for distinct indices, which is what the suppressor returns. For arbitrary lists, `Step` still bounds the growth by the list length and by the frame's inside count.
