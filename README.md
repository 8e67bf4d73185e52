# Blindway navigation pipeline — a verified Dafny model

Blindway is an Android app that helps a blind walker move around obstacles.
Its navigation screen works on every other camera frame:
- it shrinks the frame to 300 × 300 pixels;
- it packs the pixels into an RGB byte buffer;
- it runs an object detector;
- it turns up to ten raw `(cx, cy, w, h)` boxes into detections;
- it removes overlapping detections with non-maximum suppression;
- it speaks a Vietnamese alert about the closest detection, when that detection's confidence is above 0.6. With no detection at all, it checks whether a wall is near.

A 600 ms cooldown and a "do not repeat the last text" rule keep the speech from flooding the user.

This project models that pipeline, `NavigationFragment.java`, and proves what it guarantees. The modules:

- `Geometry`: boxes, corner conversion and intersection-over-union (IoU).
- `Detections`:
  - the constants;
  - the `Detection` record and the list that holds detections;
  - box validation, confidence, distance rounding and the left/front/right split.
- `Decoder`: `processOutput`, as a function over the raw table and as the loop that builds the list.
- `Suppression`: `applyNMS`.
  - Its specification is a stable sort by confidence followed by a greedy suppression.
  - The method sorts the list in place, consumes it from the front and removes overlapping entries in an inner loop.
- `Alerts`:
  - `findClosestDetection`;
  - the object and wall alerts;
  - the cooldown/repeat state machine as a function `Step`, and the history of announcements over a run of frames.
- `Preprocess`: `bitmapToByteBuffer`, with a byte buffer class.
- `Navigation`: the screen's state as a class.
  - Its fields are the frame counter, the last alert time and text, and a ghost history of what was spoken.
  - Its methods are the frame gate, `analyzeImage`, `processDetectionResults` and `checkForWall`.
  - Its invariant says every announcement so far came at least 600 ms after the previous one and changed the text.

Float arithmetic is modelled with exact reals. Java's `int` division is modelled by a truncating `JavaDiv`. `Float.MAX_VALUE` is its exact real value.

`calculateDistance` combines a trigonometric camera model with a rounding step. The model keeps:
- the rescaling of the row to a 480-row image;
- the rounding to a tenth (`Math.round`, i.e. `floor(x + 0.5)`);
- the `max(0.1, …)`.

The camera model itself (`CameraHeight / tan(toRadians(CameraAngle) + atan((y - 240) / 1000))`) is a parameter `ranging`.

The clock is a parameter `now`. The inference engine's output is a parameter too. So is the pixel array that the bitmap scaler produces.

Alert texts are a datatype that carries exactly the values the format string prints. This is faithful because a distance always has at most one decimal (`CalculateDistance`'s contract), so `%.1f` prints it exactly and two texts are equal exactly when those values are.

## Model

All source paths are under `app/src/main/java/com/example/blindwayapp/ui/navigation/`; the table gives them in full.

| member | source | states |
|---|---|---|
| Geometry.ConvertToCornerFormat | app/src/main/java/com/example/blindwayapp/ui/navigation/NavigationFragment.java:388-394 | corners are clamped to [0, 1]; the clamped box is no wider or taller than the given size; it contains the centre when the centre is in range; a box with an in-range centre and positive size lies inside the unit square with positive extent |
| Geometry.IntersectionArea | app/src/main/java/com/example/blindwayapp/ui/navigation/NavigationFragment.java:418-423 | the overlap area of two boxes, with a negative extent clamped to 0; Geometry.IntersectionBounds and Geometry.SeparatedNoOverlap state its bounds and its zero case |
| Geometry.IntersectionBounds | app/src/main/java/com/example/blindwayapp/ui/navigation/NavigationFragment.java:418-423 | the overlap area of two well-formed boxes is non-negative and at most each box's area |
| Geometry.CalculateIou | app/src/main/java/com/example/blindwayapp/ui/navigation/NavigationFragment.java:417-427 | intersection over union of the two boxes, 0 when the union area is not positive; its properties (symmetry, range [0, 1], 0 for boxes apart, 1 for a box with itself) are the contracts of the four lemmas below |
| Geometry.IouSymmetric | app/src/main/java/com/example/blindwayapp/ui/navigation/NavigationFragment.java:417-427 | IoU does not depend on the order of the boxes |
| Geometry.IouInUnitInterval | app/src/main/java/com/example/blindwayapp/ui/navigation/NavigationFragment.java:417-427 | for well-formed boxes IoU lies in [0, 1], and it is 0 when the union area is not positive |
| Geometry.SeparatedNoOverlap | app/src/main/java/com/example/blindwayapp/ui/navigation/NavigationFragment.java:418-423 | boxes that lie apart have overlap area 0 |
| Geometry.IouOfSeparated | app/src/main/java/com/example/blindwayapp/ui/navigation/NavigationFragment.java:417-427 | boxes that lie apart, side by side or one above the other, in either order, have IoU 0 |
| Geometry.IouOfSelf | app/src/main/java/com/example/blindwayapp/ui/navigation/NavigationFragment.java:417-427 | a box of positive area has IoU 1 with itself |
| Detections.DetectionList.constructor | app/src/main/java/com/example/blindwayapp/ui/navigation/NavigationFragment.java:330 | a new list is empty |
| Detections.IsValidBoundingBox | app/src/main/java/com/example/blindwayapp/ui/navigation/NavigationFragment.java:359-364 | accepts a box exactly when 0.05 ≤ width, height ≤ 1.5 and its centre lies in [0, 1]²; Decoder.DecodeEntrySpec states this as the decoder's acceptance condition, both directions |
| Detections.CalculateConfidence | app/src/main/java/com/example/blindwayapp/ui/navigation/NavigationFragment.java:366-368 | the confidence is the smaller of 8 × area and 0.8, so never above either |
| Detections.ConfidenceMonotone | app/src/main/java/com/example/blindwayapp/ui/navigation/NavigationFragment.java:366-368 | a box of larger area never gets a lower confidence |
| Detections.RoundToTenthSpec | app/src/main/java/com/example/blindwayapp/ui/navigation/NavigationFragment.java:375 | rounding gives a value with at most one decimal, within half a tenth of the input |
| Detections.RoundToTenthMonotone | app/src/main/java/com/example/blindwayapp/ui/navigation/NavigationFragment.java:375 | rounding preserves order |
| Detections.CalculateDistance | app/src/main/java/com/example/blindwayapp/ui/navigation/NavigationFragment.java:370-376 | the distance is at least 0.1 m and has at most one decimal |
| Detections.DistanceMonotone | app/src/main/java/com/example/blindwayapp/ui/navigation/NavigationFragment.java:370-376 | for rows inside the frame, if the camera model gives non-increasing distances down the 480-row reference image, the estimate is non-increasing down the frame |
| Detections.WallDistanceFixed | app/src/main/java/com/example/blindwayapp/ui/navigation/NavigationFragment.java:529-530 | the wall sample always maps to row 360 of the reference image, so its distance does not depend on the frame height |
| Detections.JavaDiv | app/src/main/java/com/example/blindwayapp/ui/navigation/NavigationFragment.java:379-381 | int division truncates toward zero: it agrees with floor division for non-negative operands and leaves a remainder of the dividend's sign |
| Detections.GetDirection | app/src/main/java/com/example/blindwayapp/ui/navigation/NavigationFragment.java:378-386 | the left/front/right split by int thirds of the width; Detections.DirectionThirds states each direction's interval, both directions, and DirectionMonotone and DirectionLandmarks its order and landmarks |
| Detections.DirectionThirds | app/src/main/java/com/example/blindwayapp/ui/navigation/NavigationFragment.java:378-386 | left iff x < width/3, right iff x > 2·width/3 (int divisions), front iff in between, boundaries included |
| Detections.DirectionMonotone | app/src/main/java/com/example/blindwayapp/ui/navigation/NavigationFragment.java:378-386 | moving right never moves the direction toward the left |
| Detections.DirectionLandmarks | app/src/main/java/com/example/blindwayapp/ui/navigation/NavigationFragment.java:378-386 | for widths of at least 3: the left edge is left, the centre is front, the right edge is right, and the boundary width/3 itself is front |
| Decoder.DecodeBox | app/src/main/java/com/example/blindwayapp/ui/navigation/NavigationFragment.java:340-353 | one kept-or-dropped box past the length check; Decoder.DecodeEntrySpec states when it keeps the box and what the kept detection satisfies |
| Decoder.DecodeEntry | app/src/main/java/com/example/blindwayapp/ui/navigation/NavigationFragment.java:333-353 | one iteration of the decoding loop, skipping short rows; its contract is Decoder.DecodeEntrySpec: kept iff `Accepted`, and a kept entry is well-formed with the row's confidence and direction |
| Decoder.DecodeEntrySpec | app/src/main/java/com/example/blindwayapp/ui/navigation/NavigationFragment.java:333-353 | an entry is kept iff it has at least four values, 0.05 ≤ w, h ≤ 1.5, 0 ≤ cx, cy ≤ 1 and min(8wh, 0.8) ≥ 0.6; a kept entry is well-formed (label, confidence in [0.6, 0.8], box in the unit square, distance ≥ 0.1) and carries the row's confidence, direction, corner-format box and distance |
| Decoder.DecodeRows | app/src/main/java/com/example/blindwayapp/ui/navigation/NavigationFragment.java:332-354 | decoding yields no more detections than rows, all well-formed |
| Decoder.DecodeRowsAppend | app/src/main/java/com/example/blindwayapp/ui/navigation/NavigationFragment.java:332-354 | rows decode independently: decoding a concatenation concatenates the results in scan order |
| Decoder.DecodeRowsMembership | app/src/main/java/com/example/blindwayapp/ui/navigation/NavigationFragment.java:332-354 | a detection is in the result iff some row decodes to it |
| Decoder.Decode | app/src/main/java/com/example/blindwayapp/ui/navigation/NavigationFragment.java:329-357 | processOutput as a function over the first 10 rows; Decoder.DecodeSpec states its bound, well-formedness and row correspondence, and Decoder.ProcessOutput is proved equal to it |
| Decoder.DecodeSpec | app/src/main/java/com/example/blindwayapp/ui/navigation/NavigationFragment.java:329-368 | at most 10 detections; all well-formed; every accepted row among the first 10 contributes its detection; every detection comes from an accepted row |
| Decoder.CentredBoxScenario | app/src/main/java/com/example/blindwayapp/ui/navigation/NavigationFragment.java:340-353 | a centred 0.3 × 0.3 box on a 640 × 480 frame is kept, in front, with confidence 0.72, at the distance the camera model gives for row 240 of the reference image |
| Decoder.ProcessOutput | app/src/main/java/com/example/blindwayapp/ui/navigation/NavigationFragment.java:329-357 | the loop builds a fresh list holding exactly the decoded detections of the first 10 rows, in scan order |
| Suppression.OverlapsSymmetric | app/src/main/java/com/example/blindwayapp/ui/navigation/NavigationFragment.java:408-409 | the discard test is symmetric |
| Suppression.Insert | app/src/main/java/com/example/blindwayapp/ui/navigation/NavigationFragment.java:398 | insertion adds exactly one occurrence of the inserted detection |
| Suppression.SortByConfidence | app/src/main/java/com/example/blindwayapp/ui/navigation/NavigationFragment.java:398 | the sorted list is a permutation of the input, in non-increasing confidence |
| Suppression.InsertSorted | app/src/main/java/com/example/blindwayapp/ui/navigation/NavigationFragment.java:398 | inserting into a sorted list keeps it sorted |
| Suppression.InsertStable | app/src/main/java/com/example/blindwayapp/ui/navigation/NavigationFragment.java:398 | insertion places the new detection ahead of all detections of equal confidence |
| Suppression.SortStable | app/src/main/java/com/example/blindwayapp/ui/navigation/NavigationFragment.java:398 | the sort is stable: detections of equal confidence keep their input order |
| Suppression.SortOfSorted | app/src/main/java/com/example/blindwayapp/ui/navigation/NavigationFragment.java:398 | sorting a sorted list changes nothing |
| Suppression.Survivors | app/src/main/java/com/example/blindwayapp/ui/navigation/NavigationFragment.java:405-412 | the inner loop never adds detections |
| Suppression.SurvivorsCount | app/src/main/java/com/example/blindwayapp/ui/navigation/NavigationFragment.java:405-412 | every occurrence of a non-overlapping detection survives, and no occurrence of an overlapping one does |
| Suppression.SurvivorsSubMultiset | app/src/main/java/com/example/blindwayapp/ui/navigation/NavigationFragment.java:405-412 | survivors are drawn from the list |
| Suppression.SurvivorsMember | app/src/main/java/com/example/blindwayapp/ui/navigation/NavigationFragment.java:405-412 | a survivor is in the list and does not overlap the accepted detection |
| Suppression.SurvivorsSorted | app/src/main/java/com/example/blindwayapp/ui/navigation/NavigationFragment.java:405-412 | the removal keeps a sorted list sorted |
| Suppression.SurvivorsAll | app/src/main/java/com/example/blindwayapp/ui/navigation/NavigationFragment.java:405-412 | when nothing overlaps, nothing is removed |
| Suppression.Suppress | app/src/main/java/com/example/blindwayapp/ui/navigation/NavigationFragment.java:400-413 | the outer loop never outputs more than its input, and outputs nothing only for an empty input |
| Suppression.SuppressCount | app/src/main/java/com/example/blindwayapp/ui/navigation/NavigationFragment.java:400-413 | no detection is accepted more often than it occurs in the input |
| Suppression.SuppressSubMultiset | app/src/main/java/com/example/blindwayapp/ui/navigation/NavigationFragment.java:400-413 | the accepted detections are a sub-multiset of the input |
| Suppression.SuppressMember | app/src/main/java/com/example/blindwayapp/ui/navigation/NavigationFragment.java:400-413 | every accepted detection is from the input |
| Suppression.SuppressSorted | app/src/main/java/com/example/blindwayapp/ui/navigation/NavigationFragment.java:400-413 | detections are accepted in non-increasing confidence |
| Suppression.SuppressSeparated | app/src/main/java/com/example/blindwayapp/ui/navigation/NavigationFragment.java:400-413 | no two accepted detections have IoU above 0.4, in either order |
| Suppression.SuppressCovers | app/src/main/java/com/example/blindwayapp/ui/navigation/NavigationFragment.java:400-413 | every discarded occurrence has IoU above 0.4 with an accepted detection of at least its confidence |
| Suppression.SuppressOfSeparated | app/src/main/java/com/example/blindwayapp/ui/navigation/NavigationFragment.java:400-413 | a pairwise-separated list passes through unchanged |
| Suppression.Nms | app/src/main/java/com/example/blindwayapp/ui/navigation/NavigationFragment.java:396-415 | applyNMS as a function: stable sort, then greedy suppression; Suppression.NmsSpec, NmsFirstIsMostConfident and NmsIdempotent state its guarantees, and Suppression.ApplyNms is proved equal to it |
| Suppression.NmsSpec | app/src/main/java/com/example/blindwayapp/ui/navigation/NavigationFragment.java:396-415 | the result is a sub-multiset of the input; it is sorted by non-increasing confidence; it is empty iff the input is; it is pairwise separated; each dropped detection is covered by a kept one of at least its confidence |
| Suppression.NmsFirstIsMostConfident | app/src/main/java/com/example/blindwayapp/ui/navigation/NavigationFragment.java:396-415 | the first accepted detection has the highest confidence of the input |
| Suppression.NmsIdempotent | app/src/main/java/com/example/blindwayapp/ui/navigation/NavigationFragment.java:396-415 | suppressing an already suppressed list changes nothing |
| Suppression.RemoveStep | app/src/main/java/com/example/blindwayapp/ui/navigation/NavigationFragment.java:405-412 | one iterator step: removing an overlapping element, or stepping past a non-overlapping one, extends the survivors |
| Suppression.RemoveOverlapping | app/src/main/java/com/example/blindwayapp/ui/navigation/NavigationFragment.java:405-412 | the iterator loop leaves exactly the detections that do not overlap the accepted one, in order |
| Suppression.ApplyNms | app/src/main/java/com/example/blindwayapp/ui/navigation/NavigationFragment.java:396-415 | the method returns the specified suppression of the original list and leaves the caller's list empty |
| Alerts.ClosestAmong | app/src/main/java/com/example/blindwayapp/ui/navigation/NavigationFragment.java:510-521 | the detection findClosestDetection returns; Alerts.ClosestSpec states it is none iff no distance is below Float.MAX_VALUE and otherwise the first of least distance, both directions |
| Alerts.MinDistanceSpec | app/src/main/java/com/example/blindwayapp/ui/navigation/NavigationFragment.java:510-521 | the running minimum starts at Float.MAX_VALUE and is at most every distance; a closest detection exists iff the minimum is below Float.MAX_VALUE, and then it has that distance |
| Alerts.ClosestSpec | app/src/main/java/com/example/blindwayapp/ui/navigation/NavigationFragment.java:510-521 | none iff no distance is below Float.MAX_VALUE (so an empty list gives none); otherwise the result is the first detection of least distance, and that first minimum is always the result |
| Alerts.FindClosestDetection | app/src/main/java/com/example/blindwayapp/ui/navigation/NavigationFragment.java:510-521 | the loop returns the closest detection as specified |
| Alerts.ObjectAlert | app/src/main/java/com/example/blindwayapp/ui/navigation/NavigationFragment.java:489-499 | the object alert for a non-empty list; Alerts.ObjectAlertSpec states when there is one and which text and values it carries |
| Alerts.ObjectAlertSpec | app/src/main/java/com/example/blindwayapp/ui/navigation/NavigationFragment.java:488-499 | there is an object alert iff the closest detection has confidence strictly above 0.6; it reports that detection's direction and distance; it is the multi-object text, with the count, iff there are several detections, and the single text iff there is one |
| Alerts.ThresholdDetectionSilent | app/src/main/java/com/example/blindwayapp/ui/navigation/NavigationFragment.java:488 | a lone detection of confidence exactly 0.6, which the decoder keeps, never gives an object alert |
| Alerts.TwoDetectionsScenario | app/src/main/java/com/example/blindwayapp/ui/navigation/NavigationFragment.java:488-499 | with two detections, the nearer confident one gives the multi-object text with count 2 and its direction and distance |
| Alerts.NearerUnconfidentSilences | app/src/main/java/com/example/blindwayapp/ui/navigation/NavigationFragment.java:489-490 | only the closest detection is weighed: a detection at 1.0 m with confidence 0.6 silences one at 2.0 m with confidence 0.8 |
| Alerts.WallAlert | app/src/main/java/com/example/blindwayapp/ui/navigation/NavigationFragment.java:532-534 | the wall alert for a sampled distance; Alerts.WallAlertUnreachable and Alerts.CandidateSpec state when it is proposed |
| Alerts.WallAlertUnreachable | app/src/main/java/com/example/blindwayapp/ui/navigation/NavigationFragment.java:529-533 | if the camera model puts row 360 at 1.05 m or further, the wall alert is never produced, whatever the frame height |
| Alerts.Candidate | app/src/main/java/com/example/blindwayapp/ui/navigation/NavigationFragment.java:478-499 | the alert a list proposes: the wall alert for an empty list, the object alert otherwise; Alerts.CandidateSpec states which is proposed when |
| Alerts.CandidateSpec | app/src/main/java/com/example/blindwayapp/ui/navigation/NavigationFragment.java:478-482 | an empty list proposes only a wall alert; a non-empty list never does; the blank text is never proposed |
| Alerts.Step | app/src/main/java/com/example/blindwayapp/ui/navigation/NavigationFragment.java:485-505 | the cooldown and repeat filter over the last alert; Alerts.StepSpec states that it speaks iff the cooldown has elapsed and the text is new, and what the next state is |
| Alerts.StepSpec | app/src/main/java/com/example/blindwayapp/ui/navigation/NavigationFragment.java:484-506 | a text is spoken iff the cooldown has elapsed and it differs from the last text; the state then becomes (now, text), and otherwise stays unchanged |
| Alerts.CooldownSilences | app/src/main/java/com/example/blindwayapp/ui/navigation/NavigationFragment.java:484-487 | within 600 ms of the last alert nothing is spoken and nothing changes |
| Alerts.RepeatSilenced | app/src/main/java/com/example/blindwayapp/ui/navigation/NavigationFragment.java:501-505 | proposing the last text again speaks nothing and changes nothing |
| Alerts.AnnouncedSpaced | app/src/main/java/com/example/blindwayapp/ui/navigation/NavigationFragment.java:484-506 | the announcements of any run of frames are spaced, and the run ends in the state of its last announcement, or its initial state if nothing was said |
| Alerts.SpacedPairwise | app/src/main/java/com/example/blindwayapp/ui/navigation/NavigationFragment.java:484-506 | a spaced history has consecutive announcements at least 600 ms apart and with different texts |
| Alerts.AnnouncementsSpaced | app/src/main/java/com/example/blindwayapp/ui/navigation/NavigationFragment.java:484-506 | whatever the timestamps, consecutive announcements are at least 600 ms apart and never repeat a text |
| Alerts.SpacedSnoc | app/src/main/java/com/example/blindwayapp/ui/navigation/NavigationFragment.java:501-505 | a spoken step keeps the history spaced and its last entry equal to the new state |
| Alerts.CooldownScenario | app/src/main/java/com/example/blindwayapp/ui/navigation/NavigationFragment.java:484-505 | an alert at 1000 ms blocks any text at 1300 ms and the same text at 1700 ms, while a new text at 1700 ms is spoken |
| Preprocess.PackRgb | app/src/main/java/com/example/blindwayapp/ui/navigation/NavigationFragment.java:319-323 | three bytes per pixel |
| Preprocess.PackRgbAt | app/src/main/java/com/example/blindwayapp/ui/navigation/NavigationFragment.java:319-323 | bytes 3k, 3k+1 and 3k+2 are (p>>16)&0xFF, (p>>8)&0xFF and p&0xFF of pixel k |
| Preprocess.SameChannelsSameColour | app/src/main/java/com/example/blindwayapp/ui/navigation/NavigationFragment.java:320-322 | equal red, green and blue bytes mean equal colour |
| Preprocess.SameColourSameChannels | app/src/main/java/com/example/blindwayapp/ui/navigation/NavigationFragment.java:320-322 | equal colour means equal red, green and blue bytes |
| Preprocess.UnpackPackRgb | app/src/main/java/com/example/blindwayapp/ui/navigation/NavigationFragment.java:319-323 | reassembling a pixel's three bytes gives the pixel with its alpha byte cleared |
| Preprocess.PackRgbForgetsAlpha | app/src/main/java/com/example/blindwayapp/ui/navigation/NavigationFragment.java:319-323 | two pixels pack to the same bytes iff they differ at most in alpha |
| Preprocess.ByteBuffer.Allocate | app/src/main/java/com/example/blindwayapp/ui/navigation/NavigationFragment.java:313 | a fresh zero-filled buffer of the requested capacity at position 0 |
| Preprocess.ByteBuffer.Put | app/src/main/java/com/example/blindwayapp/ui/navigation/NavigationFragment.java:320-322 | writes the byte at the position and advances it by one |
| Preprocess.ByteBuffer.Rewind | app/src/main/java/com/example/blindwayapp/ui/navigation/NavigationFragment.java:325 | the position returns to 0 and the storage is kept |
| Preprocess.BitmapToByteBuffer | app/src/main/java/com/example/blindwayapp/ui/navigation/NavigationFragment.java:312-327 | the buffer holds 300 × 300 × 3 bytes, exactly the packed pixels, and is rewound to position 0 |
| Navigation.AnalysedHalf | app/src/main/java/com/example/blindwayapp/ui/navigation/NavigationFragment.java:231-238 | starting from 0, n frames are analysed n / 2 times |
| Navigation.NavigationSession.constructor | app/src/main/java/com/example/blindwayapp/ui/navigation/NavigationFragment.java:75-84 | the counter is 0, the alert state is (0, ""), nothing has been spoken, and the invariant holds |
| Navigation.NavigationSession.AnnounceDetection | app/src/main/java/com/example/blindwayapp/ui/navigation/NavigationFragment.java:544-559 | the text is appended to the spoken history; no field changes |
| Navigation.NavigationSession.SpeakIfNew | app/src/main/java/com/example/blindwayapp/ui/navigation/NavigationFragment.java:501-505 | after the cooldown, the state and history follow `Step` for the text, and the invariant is kept |
| Navigation.NavigationSession.CheckForWall | app/src/main/java/com/example/blindwayapp/ui/navigation/NavigationFragment.java:523-542 | the state and history follow `Step` for the wall alert at the sampled distance, and the invariant is kept |
| Navigation.NavigationSession.ProcessDetectionResults | app/src/main/java/com/example/blindwayapp/ui/navigation/NavigationFragment.java:478-508 | the state and history follow `Step` for this list's candidate (the wall check if it is empty, else the object alert), and the invariant is kept |
| Navigation.NavigationSession.AnalyzeImage | app/src/main/java/com/example/blindwayapp/ui/navigation/NavigationFragment.java:261-310 | without an interpreter nothing changes; otherwise the filtered detections are the suppressed decoded output, and the alert state follows `Step` for them |
| Navigation.NavigationSession.OnFrame | app/src/main/java/com/example/blindwayapp/ui/navigation/NavigationFragment.java:231-238 | the counter goes up by one; the frame is analysed iff the new count is even; a skipped frame changes no alert state |

## Left out

- The trigonometric camera model in `calculateDistance` is the parameter `ranging`.
  - With the shipped constants, row 360 works out to about 1.07 m. That rounds to 1.1 m, which is above the 1.0 m threshold.
  - So `Alerts.WallAlertUnreachable` applies, and the wall alert cannot fire. The model does not evaluate `tan`/`atan`, so this numeric step is not proved.
- Floating point:
  - float rounding, overflow, infinities and NaN are not modelled; a NaN entry would pass `isValidBoundingBox`;
  - the exact float value of the 0.6/0.4/0.8 thresholds is not modelled;
  - the `(float)` narrowing of the distance is not modelled;
  - `Float.compare`'s ordering of NaN and −0 is not modelled;
  - all numbers are exact reals.
- `Math.round`'s saturation at the `long` range is not modelled.
- Detections.CalculateDistance: requires a positive frame height. Java would divide by zero and go on with infinity or NaN, but camera frames always have a positive height.
- Decoder.Decode: requires at least 10 output rows. The engine's output array is allocated with exactly 10 rows (line 288), and fewer rows would make Java throw.
- Preprocess.BitmapToByteBuffer: requires exactly 300 × 300 pixels. That is what `getPixels` fills from the resized bitmap.
- Preprocess.ByteBuffer.Put: requires room in the buffer. Java's `BufferOverflowException` cannot occur here.
- `ByteOrder.nativeOrder()` is not modelled. Byte order does not affect single-byte `put`.
- Int overflow of `2 * frameWidth` in `getDirection` is not modelled; widths are unbounded integers.
- Int overflow of `frameCount` after 2³¹ frames is not modelled.
- `String.format` and its locale, and the exact Vietnamese texts, are not modelled. A text is the datatype of the values it prints; `Direction.Phrase` gives the direction words.
- `processDetectionResults`'s null-list check is not modelled; a Dafny sequence is never null.
- `analyzeImage` steps before the resized pixels are not modelled: `ImageProxy` conversion, resizing, recycling, their null checks, and the exception handler. The inference engine's run is the `output` parameter.
- Android UI and lifecycle are not modelled, and neither is overlay drawing (`updateDetectionUI`), the permission launcher or camera binding.
- Text-to-speech is not modelled; the spoken texts go to the ghost history.
- TensorFlow Lite model loading is not modelled.
- The executor thread and `runOnUiThread` are not modelled. The model runs each frame's reaction straight after its analysis.
- `ImageUtils.java`, `HomeFragment.java`, `HomeViewModel.java` and `MainActivity.java` are not part of this model.
- The iterator loop of `applyNMS` is a separate method, `Suppression.RemoveOverlapping`. It keeps the in-place removal, with an index in place of the iterator.
- The shared "speak if new" tail of both alert paths is a separate method, `Navigation.NavigationSession.SpeakIfNew`.
