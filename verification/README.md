# ARController binding layer — a Dafny model

This project models the hand-written core of the AR.js / artoolkit5 browser
build used by the A-Frame NFT demo (`public/javascripts/aframe-ar-nft.js`).
That core is the part of the `ARController` JavaScript binding that is not
generated by Emscripten:

- **Frame arena.** `_copyImageToHeap` and `detectMarker` derive a luma buffer
  from an RGBA frame with the integer weighting `(3R + 4G + B) >> 3`, then copy
  the frame into the engine's heap.
- **Pose conversion.** `transMatToGLMat` turns the engine's row-major 3x4 pose
  into a column-major 4x4 renderer matrix. `arglCameraViewRHf` converts that
  matrix into the right-handed camera frame.
- **`process`, one frame:**
  0. It hands the frame to the engine through `detectMarker` (luma refresh
     and heap copy). A frame longer than the heap throws and aborts the call;
     any detection status is only logged, and the call goes on.
  1. It rotates the seen-this-frame / seen-last-frame flags of the three marker
     registries (pattern, barcode, NFT).
  2. It classifies each detected square and files it under its registry entry.
  3. It chooses the continuous pose solve exactly when the marker's type is
     known and the marker was seen in the previous frame, and reports a
     `getMarker` event.
  4. It walks the NFT markers through the 200 ms "lost" debounce. Inside the
     window it returns early, and no multimarker events are sent.
  5. It reports each multimarker set that has a visible sub-marker: one
     `getMultiMarker` event with the set's robust pose, then one
     `getMultiMarkerSub` event per sub-marker with the pose the engine
     reports for that sub-marker.
- **Registries.** `trackPatternMarkerId`, `trackBarcodeMarkerId` and
  `trackNFTMarkerId` get or create a registry entry.
- **Multimarker configuration.** `parseMultiFile` reads a multimarker
  configuration file and returns its pattern file names.
- **Runtime helpers.** From the Emscripten runtime: the POSIX path helpers
  `PATH.normalizeArray`, `normalize`, `dirname` and `basename`, and
  `alignUp`.

Modules follow that structure:

| Module | Contents |
|---|---|
| `Base` | `Option` and `byte` |
| `FrameArena` | the luma loop and heap copy |
| `PoseMatrix` | the matrix layouts |
| `Tracking` | registry entries, get-or-create, flag rotation, classification, solve choice |
| `NftDebounce` | the lost debounce as a state machine |
| `Process` | one `process` call as a pure function from controller state and the engine's detections to the new state and the event list |
| `JsString` | `split`, `join`, `trim`, `lastIndexOf` |
| `MultiConfig` | `parseMultiFile` |
| `Path` | the path helpers |
| `Align` | `alignUp` |

The WebAssembly engine is outside the model, and so is everything it would
compute:

- What the engine detected in a frame is an input (`Process.Frame`).
- The square pose solve is a function parameter (`Process.Solver`).
- `Date.now()` is a parameter (`now`).
- `setMarkerInfoDir` calls and dispatched events are returned as sequences,
  in the order `process` makes them.
- The global `markerFound` / `markerFoundTime` pair is an explicit `Debounce`
  value. The source keeps that pair on the global object, not on the
  controller.
- An event carries the 3x4 pose whose conversions are its `matrix` and
  `matrixGL_RH` fields (`Process.Matrix`, `Process.MatrixGLRH`). The
  controller likewise keeps the pose last converted into `transform_mat` and
  `transformGL_RH`; no pose yet stands for their initial zeros. The source
  reuses one `transform_mat` array for every event, so a listener sees the
  values at the moment of dispatch, which is what the model reports.

Each operation has a partner that the lemmas relate it to:

| Operation | Partner |
|---|---|
| `TransMatToGLMat` | inverse `GLMatToTransMat`, with round trips both ways |
| `ArglCameraViewRHf` | its own inverse, and a row flip of the pose |
| `normalizeArray` | a left-to-right stack reference (`Path.ResolveAll`), and idempotence |
| `normalize` | idempotence |
| `parseMultiFile` | a reference reading by five-line blocks (`MultiConfig.PatternFiles`) |
| `split` / `join` | each other, with round trips |
| `trim` | idempotence |
| `alignUp` | "least multiple not below x", and idempotence |
| `_copyImageToHeap` | reading the frame back from the start of the heap |
| the debounce | episode invariants over whole traces, carried over to consecutive `process` calls (`Process.SessionIsRun`) |
| `process` | the registry flags over two consecutive frames |

## Model

| member | source | states |
|---|---|---|
| FrameArena.PixelLuma | public/javascripts/aframe-ar-nft.js:629-635 | the luma of a pixel lies between its darkest and brightest colour channel, a grey pixel keeps its value, and the luma is the floor of (3R + 4G + B) / 8 |
| FrameArena.ConvertLuma | public/javascripts/aframe-ar-nft.js:627-637 | the luma array keeps its length; every pixel below videoSize holds the luma of its R, G, B bytes (0 where the frame is too short); pixels at or beyond videoSize keep their old value |
| FrameArena.CopyImageToHeap | public/javascripts/aframe-ar-nft.js:610-644 | the luma array is refreshed only if it exists: its first video-size values become the frame's luma and the values past them are untouched; the copy succeeds exactly when a heap exists and the frame fits in it, and it fails with "no heap" exactly when there is none; after a successful copy the frame reads back from the start of the heap, whose length and remaining bytes are kept; a failed copy leaves the heap alone |
| FrameArena.DetectMarker | public/javascripts/aframe-ar-nft.js:445-450 | the engine's status is returned when the frame reached the heap; -99 is returned when there is no heap; a frame longer than the heap raises the typed array's range error (None); in every case the arena is left as the heap copy leaves it: the luma refreshed, and the frame at the start of the heap exactly when it fit, the heap otherwise unchanged |
| FrameArena.LumaIgnoresAlpha | public/javascripts/aframe-ar-nft.js:629-635 | two frames that agree on every R, G and B byte give the same luma everywhere: alpha is never read |
| PoseMatrix.TransMatToGLMat | public/javascripts/aframe-ar-nft.js:390-416 | element (row, col) of the column-major result is element (row, col) of the row-major pose for the three pose rows, and the bottom row is 0 0 0 1 |
| PoseMatrix.ArglCameraViewRHf | public/javascripts/aframe-ar-nft.js:417-444 | the first row is copied, the second and third rows are negated, and the bottom row is 0 0 0 1 |
| PoseMatrix.GLMatRoundTrip | public/javascripts/aframe-ar-nft.js:390-416 | reading the pose back out of its renderer layout gives the pose |
| PoseMatrix.TransMatRoundTrip | public/javascripts/aframe-ar-nft.js:390-416 | every 4x4 matrix with bottom row 0 0 0 1 is the renderer layout of the pose read out of it, so the layout is a bijection onto such matrices |
| PoseMatrix.RightHandedInvolution | public/javascripts/aframe-ar-nft.js:417-444 | converting to right-handed form twice gives back any matrix with bottom row 0 0 0 1 |
| PoseMatrix.RightHandedTwiceOnPose | public/javascripts/aframe-ar-nft.js:390-444 | converting the renderer layout of any pose to right-handed form twice gives back that renderer layout |
| PoseMatrix.RightHandedIsFlip | public/javascripts/aframe-ar-nft.js:390-444 | the right-handed form of a pose's renderer layout is the renderer layout of the pose with its Y and Z rows negated |
| Tracking.TrackMarkerId | public/javascripts/aframe-ar-nft.js:254-301 | afterwards the registry's ids are the old ids plus the requested one, which maps to the entry handed back; other entries are unchanged; a new id gets an entry unseen in both frames, with a zero pose and the given width if truthy, else the default; a known id keeps its flags and pose, and its width changes only when a truthy width is given |
| Tracking.TrackKeepsFlags | public/javascripts/aframe-ar-nft.js:254-301 | get-or-create never changes which ids count as seen in the current or the previous frame |
| Tracking.TrackMarkerIdStable | public/javascripts/aframe-ar-nft.js:254-301 | tracking an id again without a width hands back the same entry and changes nothing |
| Tracking.TrackMarkerIdSize | public/javascripts/aframe-ar-nft.js:254-301 | the number of records grows by one exactly for an unseen id, otherwise it stays the same |
| Tracking.MarkSeen | public/javascripts/aframe-ar-nft.js:142-147 | the entry takes the new pose and keeps its width; it is now seen in the current frame; no other entry and no previous-frame flag changes |
| Tracking.RotateFlags | public/javascripts/aframe-ar-nft.js:110-124 | the same ids remain; every entry's previous-frame flag takes its old current-frame flag, and the current-frame flag is cleared; poses and widths are kept |
| Tracking.RotateTwiceForgets | public/javascripts/aframe-ar-nft.js:110-124 | two rotations with no sighting in between leave no entry seen in either frame |
| Tracking.Slot | public/javascripts/aframe-ar-nft.js:128-136 | a pattern marker is filed under its pattern id and a barcode under its matrix id, both non-negative; an unknown square shares pattern entry -1 |
| Tracking.SlotsSeparateTypes | public/javascripts/aframe-ar-nft.js:127-141 | two squares share a registry entry only when they have the same type, and the same pattern id or matrix id for a known type, so no known marker shares the unknown squares' entry -1 |
| NftDebounce.RunTracksEpisode | public/javascripts/aframe-ar-nft.js:165-203 | over any sequence of frames (and so over consecutive process calls on frames with one NFT marker, by Process.SessionIsRun), the state remembers marker i iff some found frame has not been followed by a found or lost outcome, and the remembered time is that found frame's clock reading |
| NftDebounce.LostOnlyAfterWindow | public/javascripts/aframe-ar-nft.js:187-191 | a lost outcome has an earlier found frame, no found or lost outcome in between, and more than 200 ms between the two frames |
| NftDebounce.NoDoubleLost | public/javascripts/aframe-ar-nft.js:187-203 | between any two lost outcomes for a marker there is a found outcome |
| NftDebounce.DroppedFrameIsNotLost | public/javascripts/aframe-ar-nft.js:164-191 | found, found, absent, found at 0, 16, 33 and 50 ms gives found, found, early return, found: a dropped frame is no loss |
| Process.GLOf | public/javascripts/aframe-ar-nft.js:390-416 | the renderer matrix of a pose has bottom row 0 0 0 1 and gives back the pose; with no pose yet it is all zeros |
| Process.GLRHOf | public/javascripts/aframe-ar-nft.js:417-444 | the right-handed matrix of a pose is the right-handed conversion of its renderer matrix, and converting it again gives the renderer matrix back; with no pose yet it is all zeros |
| Process.EventMatrices | public/javascripts/aframe-ar-nft.js:148-246 | every event's matrixGL_RH is the right-handed conversion of its matrix, which has bottom row 0 0 0 1 and gives back the event's pose; a lost event before any conversion carries zeros in both |
| Process.RotateAll | public/javascripts/aframe-ar-nft.js:110-124 | in all three registries the ids are kept, the previous-frame flag is the old current-frame flag, and nothing is seen in the current frame; the width and the last converted pose are kept |
| Process.SquareStep | public/javascripts/aframe-ar-nft.js:125-160 | one square produces a getMarker event with its index, type and info, and the solved pose becomes the controller's last converted pose; the direction is corrected exactly when the engine's direction differs from the pattern direction (pattern) or matrix direction (barcode); unknown squares correct nothing; the NFT registry is untouched |
| Process.SquareStepKeys | public/javascripts/aframe-ar-nft.js:125-141 | one square adds pattern entry -1 and the square's own entry to its registry, and no other id |
| Process.SquareStepSeen | public/javascripts/aframe-ar-nft.js:142-147 | one square marks its own entry seen now and changes no other entry's current-frame flag |
| Process.SquareStepPose | public/javascripts/aframe-ar-nft.js:142-151 | the square's own entry holds the pose that was solved into it, which is also the pose the getMarker event reports |
| Process.SquareStepBefore | public/javascripts/aframe-ar-nft.js:125-147 | one square changes no entry's previous-frame flag |
| Process.SquareStepSolve | public/javascripts/aframe-ar-nft.js:142-146 | one square is solved continuously iff its type is known and its entry was seen in the previous frame |
| Process.SquarePhase | public/javascripts/aframe-ar-nft.js:125-161 | the square loop makes one event and one solve per detected square and leaves the NFT registry alone |
| Process.SquarePhaseFlags | public/javascripts/aframe-ar-nft.js:125-161 | starting from cleared current-frame flags, after the loop a pattern or barcode entry is seen now iff some detected square is filed under it |
| Process.SquarePhaseBefore | public/javascripts/aframe-ar-nft.js:125-161 | the square loop changes no previous-frame flag |
| Process.SquarePhaseKeys | public/javascripts/aframe-ar-nft.js:125-161 | after the loop the pattern registry holds its old ids, the ids of detected pattern squares and -1; the barcode registry holds its old ids and those of detected barcodes |
| Process.SquarePhaseSolves | public/javascripts/aframe-ar-nft.js:142-146 | square j is solved continuously iff its type is known and its entry was seen in the previous frame |
| Process.SquarePhaseEvents | public/javascripts/aframe-ar-nft.js:148-160 | event j is the getMarker event for square j, with its type and info |
| Process.NftPhase | public/javascripts/aframe-ar-nft.js:162-204 | the NFT loop leaves the pattern and barcode registries and the default width alone |
| Process.NftPhaseEventKinds | public/javascripts/aframe-ar-nft.js:165-203 | the NFT loop reports only found and lost events |
| Process.NftPhaseLost | public/javascripts/aframe-ar-nft.js:187-203 | a lost event is for the remembered marker, which is absent, its 200 ms window passed, and no marker before it was found this frame; it carries the pose converted before the NFT loop; at most one lost event per frame |
| Process.NftPhaseFound | public/javascripts/aframe-ar-nft.js:165-186 | every found event is for a marker found this frame, carries its info, and that marker's entry is seen now with the engine's pose |
| Process.NftPhaseKeepsSeen | public/javascripts/aframe-ar-nft.js:165-186 | a later iteration never changes the entry of a marker the loop has passed |
| Process.NoLostAfterFound | public/javascripts/aframe-ar-nft.js:168-191 | once the remembered marker is one the loop has passed, the rest of the loop reports no lost event and does not return early |
| Process.NoLostWhenCleared | public/javascripts/aframe-ar-nft.js:187-191 | with no remembered marker the loop reports no lost event and does not return early |
| Process.NftPhaseHalts | public/javascripts/aframe-ar-nft.js:187-190 | the loop returns early iff the remembered marker is still ahead and absent, its 200 ms window has not passed, and no marker before it was found |
| Process.NftPhaseFlags | public/javascripts/aframe-ar-nft.js:165-186 | previous-frame NFT flags are unchanged; an NFT entry is seen now only if it already was or its marker was found this frame; when the loop runs to the end, every found marker's entry is seen now |
| Process.AnyVisible | public/javascripts/aframe-ar-nft.js:212-227 | a set is reported iff one of its sub-markers has visible >= 0 |
| Process.SubEvents | public/javascripts/aframe-ar-nft.js:229-244 | one getMultiMarkerSub event per sub-marker in order, each with its index, its visible field and the pose the engine reported for that sub-marker |
| Process.MultiPhase | public/javascripts/aframe-ar-nft.js:205-246 | the multimarker loop touches no registry |
| Process.SetPoseIsLastEvent | public/javascripts/aframe-ar-nft.js:206-246 | the pose a set leaves converted is the pose of the last event it reports (its last sub-marker's), or its robust pose when it reports none, which happens exactly when no sub-marker is visible |
| Process.MultiPhaseLastPose | public/javascripts/aframe-ar-nft.js:206-246 | after the loop the last converted pose is the last set's last sub-marker pose when that set is visible, and its robust pose otherwise; with no set it is unchanged |
| Process.MultiEventsShape | public/javascripts/aframe-ar-nft.js:206-246 | each event of one set is either its getMultiMarker, with the set's robust pose, or a getMultiMarkerSub with a valid sub-marker index and that sub-marker's visible field and pose; the set has a getMultiMarker event iff some sub-marker is visible |
| Process.MultiPhaseShape | public/javascripts/aframe-ar-nft.js:205-246 | every multimarker event names an existing set at or after the loop's start; a getMultiMarker event carries that set's robust pose, and a sub-marker event a valid index with that sub-marker's visible field and pose |
| Process.MultiEventsReport | public/javascripts/aframe-ar-nft.js:212-227 | one set's own events report only that set, and do so iff a sub-marker is visible |
| Process.MultiPhaseReported | public/javascripts/aframe-ar-nft.js:205-246 | each set is reported by the loop iff one of its sub-markers is visible |
| Process.ProcessImage | public/javascripts/aframe-ar-nft.js:103-107 | a whole process call aborts (None: no new controller, debounce state or events) exactly when the frame is longer than the heap; otherwise it is process on the frame, whatever the detection status; the arena is left as detectMarker leaves it |
| Process.ProcessFrame | public/javascripts/aframe-ar-nft.js:108-250 | process after detection never changes the default marker width; its effect on the registries, solves and events is stated by the lemmas below |
| Process.ProcessFrameRegistries | public/javascripts/aframe-ar-nft.js:108-250 | the pattern and barcode registries after process are those of the square loop, the NFT registry is that of the NFT loop, and the multimarker loop changes none |
| Process.ProcessFrameSeenNow | public/javascripts/aframe-ar-nft.js:110-161 | after process a pattern or barcode entry is seen now iff a detected square of this frame is filed under it |
| Process.ProcessFrameSeenBefore | public/javascripts/aframe-ar-nft.js:110-204 | after process every entry's previous-frame flag equals its current-frame flag before the call |
| Process.ProcessFrameSolves | public/javascripts/aframe-ar-nft.js:125-146 | process solves each square once, continuously iff its type is known and its entry was seen in the current frame before the call |
| Process.ContinuityAcrossFrames | public/javascripts/aframe-ar-nft.js:110-146 | over two consecutive frames, a square of the second frame is solved continuously iff its type is known and a square of the first frame was filed under the same entry |
| Process.ProcessEarlyReturn | public/javascripts/aframe-ar-nft.js:162-246 | process returns early iff the remembered NFT marker is absent within its 200 ms window and no earlier NFT marker was found; then no multimarker event is reported |
| Process.NftPhaseSingle | public/javascripts/aframe-ar-nft.js:162-204 | with one NFT marker the NFT loop leaves the debounce state of one debounce step, returns early iff the step holds, and reports the marker found or lost iff the step says so |
| Process.SquarePhaseNoNft | public/javascripts/aframe-ar-nft.js:125-161 | the square loop reports no NFT event |
| Process.MultiPhaseNoNft | public/javascripts/aframe-ar-nft.js:205-246 | the multimarker loop reports no NFT event |
| Process.ProcessFrameSingleNft | public/javascripts/aframe-ar-nft.js:108-250 | on a frame with one NFT marker, process leaves the debounce state of one debounce step, returns early iff the step holds, and reports the marker found or lost iff the step's outcome is found or lost |
| Process.Observations | public/javascripts/aframe-ar-nft.js:164-191 | the debounce sees, for frame k, whether its NFT marker was found and frame k's clock reading |
| Process.SessionIsRun | public/javascripts/aframe-ar-nft.js:108-250 | over consecutive process calls on frames with one NFT marker, the debounce state is that of the debounce trace of the marker's observations, and call k reports found, reports lost or returns early exactly when that trace's outcome k is found, lost or hold |
| JsString.LastIndexOf | public/javascripts/aframe-ar-nft.js:2138-2143 | the result is -1 or an index holding the character, with no occurrence after it |
| JsString.IndexOf | public/javascripts/aframe-ar-nft.js:949 | the first position holding the separator |
| JsString.Split | public/javascripts/aframe-ar-nft.js:949 | splitting gives at least one piece and at most one more than the string has characters, no piece holds the separator, and joining the pieces gives back the string |
| JsString.JoinConcat | public/javascripts/aframe-ar-nft.js:2112-2125 | joining a concatenation of two non-empty lists puts one separator between the two joins |
| JsString.IndexOfAfter | public/javascripts/aframe-ar-nft.js:949 | in a separator-free piece followed by the separator, the first separator is the one after the piece |
| JsString.SplitCons | public/javascripts/aframe-ar-nft.js:949 | splitting a separator-free piece, the separator and a rest gives the piece followed by the pieces of the rest |
| JsString.SplitJoin | public/javascripts/aframe-ar-nft.js:949 | splitting a join of separator-free parts gives back the parts |
| JsString.LeadingWhite | public/javascripts/aframe-ar-nft.js:954 | the count of leading white space: every counted character is white, and the next is not |
| JsString.TrailingWhite | public/javascripts/aframe-ar-nft.js:954 | the count of trailing white space: every counted character is white, and the one before is not |
| JsString.Trim | public/javascripts/aframe-ar-nft.js:954 | the trimmed line is a slice of the line with white space only outside it, and it neither starts nor ends with white space |
| JsString.TrimIdempotent | public/javascripts/aframe-ar-nft.js:954 | trimming twice is trimming once |
| JsString.JoinHead | public/javascripts/aframe-ar-nft.js:2117 | no parts join to the empty string; the join starts with the first part, followed by the separator when there are two parts or more |
| JsString.TrimAllWhite | public/javascripts/aframe-ar-nft.js:954 | a line of white space only (ECMAScript white space and line terminators) trims to the empty string |
| JsString.TrimUnpadded | public/javascripts/aframe-ar-nft.js:954 | a line that neither starts nor ends with white space is its own trim |
| MultiConfig.BytesToString | public/javascripts/aframe-ar-nft.js:943-945 | each byte becomes the character with the same code |
| MultiConfig.Meaningful | public/javascripts/aframe-ar-nft.js:954-956 | the meaningful lines are neither blank nor comments |
| MultiConfig.Position | public/javascripts/aframe-ar-nft.js:957-973 | the parser state is 0 exactly before the first meaningful line |
| MultiConfig.BlockHeadsSnoc | public/javascripts/aframe-ar-nft.js:962-973 | one more line adds a file name exactly when it starts a five-line block and is not a number |
| MultiConfig.PatternFilesSnoc | public/javascripts/aframe-ar-nft.js:957-973 | one more meaningful line after the count line adds a file name exactly when it starts a block and is not a number |
| MultiConfig.FeedAdvances | public/javascripts/aframe-ar-nft.js:953-973 | one forEach turn moves the parser from the reading of the lines so far to the reading with that line added, and ignores blank and comment lines |
| MultiConfig.FeedAllIsPatternFiles | public/javascripts/aframe-ar-nft.js:953-975 | after any prefix of lines, the parser's state is the position of the next meaningful line in its five-line block, and its output is the reference reading of those lines |
| MultiConfig.ParseMultiFileIsPatternFiles | public/javascripts/aframe-ar-nft.js:947-976 | parseMultiFile returns the reference reading: skip the count line, then the head of every five-line block that is not a number |
| MultiConfig.CountIgnored | public/javascripts/aframe-ar-nft.js:958-960 | the count line never changes the file names returned |
| MultiConfig.BlockHeadsAreLines | public/javascripts/aframe-ar-nft.js:961-973 | every file name returned is one of the lines and is not a number, and there is at most one per started five-line block |
| MultiConfig.Feed | public/javascripts/aframe-ar-nft.js:953-973 | a blank or comment line changes nothing; any other line advances the state cyclically through 1 to 5; the file list grows only in state 1, by the trimmed line, when it is not a number |
| MultiConfig.FeedAll | public/javascripts/aframe-ar-nft.js:953-973 | after the lines there are at most as many file names as lines, and each is a trimmed, meaningful, non-numeric line |
| MultiConfig.ParseMultiFile | public/javascripts/aframe-ar-nft.js:947-976 | at most one file name more than the file has bytes, each a trimmed line that is neither blank, a comment nor a number |
| MultiConfig.WhiteLineIgnored | public/javascripts/aframe-ar-nft.js:954-955 | a line of white space only is skipped like an empty line |
| MultiConfig.DigitLineCounts | public/javascripts/aframe-ar-nft.js:955-964 | a barcode id line is never skipped and trimming leaves it unchanged, so it takes its block's first line without adding a file name |
| Path.ScanBack | public/javascripts/aframe-ar-nft.js:2091-2103 | the segments the right-to-left pass keeps are plain (neither "." nor "..") and come from the input |
| Path.NormalizeArray | public/javascripts/aframe-ar-nft.js:2091-2110 | the result has no "."; any ".." come before every other segment, and there are none unless climbing above the root is allowed; every other segment comes from the input |
| Path.Push | public/javascripts/aframe-ar-nft.js:2093-2103 | one turn of the loop keeps at most the current segment, and only when it is plain |
| Path.Dots | public/javascripts/aframe-ar-nft.js:2105-2109 | n copies of ".." |
| Path.ScanBackPlain | public/javascripts/aframe-ar-nft.js:2091-2103 | the pass keeps a list of plain segments whole |
| Path.ScanBackNormal | public/javascripts/aframe-ar-nft.js:2091-2103 | leading ".." in front of plain segments are all counted, and none cancels anything |
| Path.NormalShape | public/javascripts/aframe-ar-nft.js:2091-2110 | a normal list is some ".." followed by plain segments |
| Path.NormalizeArrayIdempotent | public/javascripts/aframe-ar-nft.js:2091-2110 | normalizeArray is idempotent |
| Path.NormalizeArrayFixes | public/javascripts/aframe-ar-nft.js:2091-2110 | a list already in normal form is returned as it is |
| Path.ScanBackConcat | public/javascripts/aframe-ar-nft.js:2091-2103 | the pass over a concatenation cancels the ".." left over from the right part against the end of the left part |
| Path.ResolveStep | public/javascripts/aframe-ar-nft.js:2091-2110 | pushing one segment onto the reference stack agrees with the pass over the list with that segment appended |
| Path.PushCombine | public/javascripts/aframe-ar-nft.js:2093-2103 | handling a segment in front of the left piece commutes with combining it with the pass over the right piece |
| Path.ResolvePop | public/javascripts/aframe-ar-nft.js:2097-2102 | ".." pops the last plain segment of the stack, as the pass cancels the last kept segment |
| Path.ResolveClimb | public/javascripts/aframe-ar-nft.js:2097-2109 | ".." with nothing to cancel is kept in front exactly when climbing above the root is allowed |
| Path.ResolvePush | public/javascripts/aframe-ar-nft.js:2100-2103 | a plain segment is pushed, as the pass keeps it after the kept segments |
| Path.NormalizeArrayIsResolve | public/javascripts/aframe-ar-nft.js:2091-2110 | the right-to-left splice loop computes the left-to-right stack reading: "." is dropped, ".." pops a plain segment, or stays at the front when allowed, or is dropped |
| Path.NonEmpty | public/javascripts/aframe-ar-nft.js:2115-2117 | the kept segments are non-empty and come from the input |
| Path.SegmentsClean | public/javascripts/aframe-ar-nft.js:2115-2117 | the normalised segments are non-empty and hold no slash |
| Path.Normalize | public/javascripts/aframe-ar-nft.js:2112-2125 | the result is never empty and is absolute exactly when the path is |
| Path.Assemble | public/javascripts/aframe-ar-nft.js:2121-2124 | the result starts with a slash iff a leading slash was asked for or the body starts with one |
| Path.AssembleEnds | public/javascripts/aframe-ar-nft.js:2121-2124 | for a body that is non-empty and does not end in a slash, the result ends in a slash iff a trailing slash was asked for |
| Path.BodyIsCore | public/javascripts/aframe-ar-nft.js:2115-2120 | the joined body is empty only for an absolute path that normalises to the root; otherwise it neither starts nor ends with a slash |
| Path.FirstCharOfClean | public/javascripts/aframe-ar-nft.js:2115-2117 | a join of non-empty slash-free parts neither starts nor ends with a slash, and it is empty only for no parts |
| Path.SplitOfClean | public/javascripts/aframe-ar-nft.js:2115-2117 | splitting such a join and dropping empty pieces gives back the parts |
| Path.NormalizePieces | public/javascripts/aframe-ar-nft.js:2112-2125 | the non-empty pieces of the normalised path are its normalised segments |
| Path.NormalizeSegmentsStable | public/javascripts/aframe-ar-nft.js:2112-2125 | normalize computes the same segments from its own output |
| Path.NormalizeIdempotent | public/javascripts/aframe-ar-nft.js:2112-2125 | normalize is idempotent |
| Path.Basename | public/javascripts/aframe-ar-nft.js:2138-2143 | for any path but "/", the basename is a slash-free suffix of the path, preceded by a slash when it is not the whole path |
| Path.TrailingSlashes | public/javascripts/aframe-ar-nft.js:2087-2090 | the count of trailing slashes: every counted character is a slash, and the one before is not |
| Path.DirLength | public/javascripts/aframe-ar-nft.js:2087-2090 | the directory group is a prefix of the text after the root |
| Path.DirLengthIsShortest | public/javascripts/aframe-ar-nft.js:2087-2090 | the directory group is the shortest prefix the lazy group can take: after it only a slash-free name and trailing slashes remain, and after no shorter prefix do they |
| Path.LastIndexOfUnique | public/javascripts/aframe-ar-nft.js:2140 | the last occurrence is the one with no occurrence after it |
| Path.Dirname | public/javascripts/aframe-ar-nft.js:2126-2137 | the dirname is never empty; it is "." or a prefix of the path, and an absolute path's dirname starts with the root |
| Path.DirnameOfName | public/javascripts/aframe-ar-nft.js:2126-2143 | a path without a slash has dirname "." and is its own basename |
| Path.DirnameKeepsRoot | public/javascripts/aframe-ar-nft.js:2126-2137 | the dirname of an absolute path is absolute |
| Path.DirnameAtLastSlash | public/javascripts/aframe-ar-nft.js:2126-2137 | for a path without trailing slashes, the dirname is the text before its last slash, when that slash is not the first character |
| Path.DirnameBasename | public/javascripts/aframe-ar-nft.js:2126-2143 | for such a path, dirname, "/" and basename concatenate back to the path |
| Path.DirLengthNoTrailing | public/javascripts/aframe-ar-nft.js:2087-2090 | without trailing slashes the directory group ends just after the last slash |
| Align.JsRem | public/javascripts/aframe-ar-nft.js:1605 | JavaScript's remainder has the sign of the dividend and is smaller in magnitude than the modulus |
| Align.AlignUp | public/javascripts/aframe-ar-nft.js:1604-1609 | for a positive multiple and a non-negative size the result lies in [x, x + multiple); a non-positive size or a zero multiple is returned unchanged |
| Align.AlignUpIsMultiple | public/javascripts/aframe-ar-nft.js:1604-1609 | for a positive multiple and a non-negative size the result is a multiple |
| Align.AlignUpLeast | public/javascripts/aframe-ar-nft.js:1604-1609 | and it is the least multiple not below the size |
| Align.MultiplesApart | public/javascripts/aframe-ar-nft.js:1604-1609 | two different multiples are at least one multiple apart |
| Align.AlignUpIdempotent | public/javascripts/aframe-ar-nft.js:1604-1609 | aligning twice is aligning once, for every integer size and multiple |

## Left out

- The WebAssembly engine: detection, pose estimation, NFT tracking and the
  multimarker robust solve. Their results are inputs, and the square solve is
  a function parameter.
- Canvas drawing in `_copyImageToHeap` for non-`ImageData` sources, and the
  portrait rotation. The model starts from the RGBA bytes.
- Float64/Float32 rounding. Matrices hold reals, and the optional `scale`
  argument of the matrix conversions is never passed by `process`, so it is
  not modelled.
- Listener dispatch. Events are returned in order instead. A listener that
  mutated controller state during dispatch is not modelled.
- `debugDraw` and the `console.error` on a non-zero detection status. These
  are I/O only.
- `nftMarkerCount` is taken to be the number of NFT infos in the frame, and
  `getMarker`/`getNFTMarker` are assumed to succeed. The source would throw
  on an `undefined` info.
- Each `process` call reads the clock once. The source calls `Date.now()` at
  each found and each absent-remembered marker, milliseconds apart.
- NftDebounce.RunTracksEpisode, LostOnlyAfterWindow and NoDoubleLost follow
  one marker. `process` keeps one remembered marker for all NFT markers, and
  finding any marker overwrites it. Process.SessionIsRun carries these
  lemmas over to `process` only for frames with a single NFT marker. With
  several NFT markers, the loop-level lemmas (Process.NftPhaseLost,
  NoLostAfterFound, NftPhaseHalts) state what one frame does.
- Process.SessionIsRun folds Process.ProcessFrame, so every frame of the
  session is taken to have reached the heap. An aborted call (Process.ProcessImage
  returning None) changes no state, and the session simply omits it.
- `getMultiEachMarker` returns `undefined` on a non-zero engine status, and
  `process` would then throw reading `.visible`. The model takes every
  sub-marker read to succeed: `MultiInfo.subs` holds one visible field and
  one engine-reported pose per sub-marker.
- Event payloads are narrowed to what `process` itself reads:
  - `MarkerInfo` keeps the ids and directions, six fields;
  - `NftInfo` keeps `found` and the pose;
  - `getMultiMarkerSub` carries only the sub-marker's `visible` field, not
    the whole `multiEachMarkerInfo` object.
  The remaining engine fields are passed through unread.
- The `markers = +line` count in `parseMultiFile` is parsed but never used,
  so it has no counterpart.
- Tracking.TrackMarkerId: widths are reals. A NaN width, which JavaScript
  treats as falsy, is not modelled.
- Align.AlignUp: only integer arguments are modelled. A zero multiple is
  handled, because the source's NaN remainder fails the `> 0` test.
- UTF-8 helpers (`UTF8ArrayToString`, `stringToUTF8Array`,
  `lengthBytesUTF8`) are not part of this model. They are Emscripten runtime
  glue next to the binding layer, and the model stops at the configuration
  text above them.
- `PATH.extname`, `join`, `join2`, `PATH_FS` and the rest of the Emscripten
  file system are not part of this model.
- The A-Frame components (`App.js` and the scene files) are not part of this
  model.
