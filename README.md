# SignPal caption stabilisation, modelled in Dafny

SignPal turns a webcam stream of sign-language gestures into on-screen
captions. For each frame, MediaPipe Holistic detects pose, face and hand
landmarks. `extract_keypoints` flattens them into one feature vector. The
frame loop in `main` keeps the last 30 vectors as a sliding window. Once the
window is full, the loop asks a trained network for one probability per
gesture label. It records the most probable index and confirms that label
only when two things hold: the index agrees with the recent predictions,
and its probability is above 0.7. A confirmed label goes onto the caption
unless it repeats the last one, and the caption keeps its last five labels.
The caption is drawn on the frame as the labels joined by spaces.

This project models that core:

- `keypoints.dfy` (module `Keypoints`): `extract_keypoints` as a pure
  function over optional landmark groups.
- `numpy.dfy` (module `Numpy`): `np.argmax`, with the first maximum winning,
  and `np.unique`, the sorted distinct values.
- `slices.dfy` (module `Slices`): Python's `s[-n:]`.
- `caption.dfy` (module `Caption`): the label vocabulary, the
  append-unless-repeated rule, and `' '.join` together with its inverse.
- `stabilizer.dfy` (module `Stabilizer`): the frame loop's three variables
  as a value `State`. `Next` is one frame and `Run` is a whole session. The
  lemmas give the window, prediction and caption properties.
- `pipeline.dfy` (module `Pipeline`): class `Session`, which holds the
  fields `sequence`, `predictions` and `sentence` and updates them in place
  as the loop does. Its methods are proved against `Next` and `Run`.
- `optional.dfy` (module `Optional`): the `Option` type. It stands for an
  undetected landmark group, a failed capture and an unconfirmed window.

The agreement check at app1.py:129 compares the current index with
`np.unique(predictions[-10:])[0]`. `np.unique` sorts, so that value is the
smallest of the last ten indices, and the current index, just appended, is
one of them. The check therefore holds exactly when the current index is at
most every one of the last ten predictions (`AgreementIsMinimum`). Reading
the check as a comparison with the oldest recent entry, or with the most
frequent one, misreads line 129; `AgreementExamples` gives inputs where
those readings and the code differ. Line 127 appends to `predictions` and
nothing ever truncates it, so the model keeps the whole history, and
`AgreementRecentOnly` proves that only the last ten entries matter.

The network and the label list are a single value, `Classifier(predict,
actions)`. `predict` is any total function from a window to 12 reals, and
`actions` is a 12-entry label list. A session is always built with the
labels of app1.py:9 (`Session.constructor`). The stabiliser lemmas hold for
any 12-label vocabulary.

## Model

| member | source | states |
|---|---|---|
| `Slices.Last` | app1.py:123 | `s[-n:]` has length min(n, len(s)) and holds the last entries of `s`, in order |
| `Slices.LastAppend` | app1.py:122-123 | truncating before an append and again after it equals one truncation after the append, so a window only needs its last n entries |
| `Slices.LastLast` | app1.py:138 | truncating to the last n twice is the same as once |
| `Numpy.Argmax` | app1.py:127 | the index is in range, holds a value ≥ every entry, and every earlier entry is strictly smaller (first maximum wins) |
| `Numpy.ArgmaxUnique` | app1.py:127 | those properties determine the argmax uniquely |
| `Numpy.Unique` | app1.py:129 | `np.unique` of a non-empty list is non-empty, so indexing `[0]` is safe |
| `Numpy.InsertSortedCorrect` | app1.py:129 | inserting into an ascending distinct list keeps it ascending and distinct, adds exactly the new value, and puts the smaller value first |
| `Numpy.UniqueCorrect` | app1.py:129 | `np.unique(s)` is strictly ascending and has exactly the values of `s` |
| `Numpy.UniqueHeadIsMinimum` | app1.py:129 | `np.unique(s)[0]` occurs in `s` and is ≤ every entry of `s` |
| `Keypoints.FlattenPose` | app1.py:27 | a pose landmark list flattens to 4 values per landmark, x, y, z, visibility at offsets 4i..4i+3 |
| `Keypoints.FlattenPoints` | app1.py:28-30 | a face or hand landmark list flattens to 3 values per landmark, x, y, z at offsets 3i..3i+2 |
| `Keypoints.PoseBlock` | app1.py:27 | the pose block has 4 values per detected landmark, or 33*4 values when the pose is absent, and those are all zero; its layout is in `Keypoints.Layout` |
| `Keypoints.PointBlock` | app1.py:28-30 | a face or hand block has 3 values per detected landmark, or `count`*3 values when the group is absent, and those are all zero |
| `Keypoints.ExtractKeypoints` | app1.py:26-31 | the feature vector's length is the sum of the four block lengths |
| `Keypoints.BlockLengths` | app1.py:27-30 | each block is 132, 1404, 63 and 63 values long when its group is absent or has 33/468/21/21 landmarks |
| `Keypoints.StandardLength` | app1.py:27-31 | with standard landmark counts the feature vector has 1662 entries |
| `Keypoints.Layout` | app1.py:31 | the vector is pose, face, left hand, right hand at consecutive offsets; an absent pose puts 132 zeros first, a present one x, y, z and visibility of landmark i at offsets 4i..4i+3 |
| `Keypoints.NothingDetected` | app1.py:27-31 | a frame with no group detected gives 1662 zeros |
| `Caption.Emit` | app1.py:131-135 | a label is appended unless it equals the current last entry; an empty caption always takes it; the last entry is the label; no adjacent repeats is preserved |
| `Caption.EmitIdempotent` | app1.py:131-135 | emitting the same label twice in a row equals emitting it once |
| `Caption.LastNoAdjacentDuplicates` | app1.py:137-138 | keeping the last five labels keeps the caption free of adjacent repeats |
| `Caption.CollapseSnoc` | app1.py:131-135 | the append rule is one step of merging runs of equal labels, against an independent definition of that merge |
| `Caption.EmitLast` | app1.py:131-138 | truncating the caption before an append changes nothing once it is truncated again |
| `Caption.EmitTruncated` | app1.py:131-138 | on a caption of at most five labels, appending and then keeping the last five changes the caption exactly when the label is appended; the label then goes at the end and a full caption drops its oldest entry |
| `Caption.Render` | app1.py:141 | the caption text is empty exactly when the caption is empty or holds a single empty label |
| `Caption.RenderRoundTrip` | app1.py:141 | when the labels are non-empty words without spaces, splitting the caption text at spaces gives the label list back |
| `Caption.ActionsAreWords` | app1.py:9 | there are 12 labels, each a non-empty word without spaces |
| `Stabilizer.Agrees` | app1.py:129 | the agreement test `np.unique(predictions[-10:])[0] == top`; its meaning, "top is the minimum of the last ten", is the contract of `AgreementIsMinimum`, and `AgreementRecentOnly` and `AgreementExamples` also describe it |
| `Stabilizer.Confirm` | app1.py:127-130 | a label is confirmed only with a confidence strictly above 0.7, and the confirmed label is the one at the argmax index; when it is confirmed at all is stated by `CaptionChange` and `GateKeepsCaption` |
| `Stabilizer.Classify` | app1.py:125-138 | classifying a full window leaves the window as it is, appends exactly the argmax to the predictions and keeps the caption at most five long; the caption itself is given by `CaptionChange`, `GateKeepsCaption` and `ClassifyInv` |
| `Stabilizer.Slide` | app1.py:122-123 | the window after an append holds min(n + 1, 30) vectors, where n is the old window's length; its contents, the last 30 of the old window plus the new vector, and its FIFO behaviour are in `NextWindow` and `RunWindow` |
| `Stabilizer.Next` | app1.py:121-138 | one frame keeps the window at most 30 long and records one prediction exactly when the window is full; the window, the caption and the invariant are in `NextWindow`, `ClassifiesOnlyWhenFull` and `NextInv` |
| `Stabilizer.Run` | app1.py:107-138 | a session from empty lists keeps the window at most 30 long and records at most one prediction per frame; the exact window, prediction count, invariant and caption are in `RunWindow`, `RunPredictions`, `RunInv` and `RunCaption` |
| `Stabilizer.NextWindow` | app1.py:122-123 | the window is a FIFO queue of capacity 30: below capacity a frame is appended; at capacity the oldest vector is evicted |
| `Stabilizer.ClassifiesOnlyWhenFull` | app1.py:123-127 | the window never exceeds 30; below 30 the predictions and the caption are unchanged; at 30 exactly one index is appended, the argmax of the network output |
| `Stabilizer.RunWindow` | app1.py:121-123 | after any session the window is the last min(n, 30) appended vectors in arrival order |
| `Stabilizer.RunPredictions` | app1.py:125-127 | no prediction is recorded for the first 29 frames, then exactly one per frame |
| `Stabilizer.AgreementIsMinimum` | app1.py:129 | the agreement check holds exactly when the current index is ≤ every entry of the last ten predictions; with no earlier history it always holds |
| `Stabilizer.AgreementRecentOnly` | app1.py:127-129 | keeping the full prediction history or only its last ten entries gives the same check |
| `Stabilizer.AgreementExamples` | app1.py:129 | the check compares with the smallest recent index, neither the oldest nor the most frequent |
| `Stabilizer.GateKeepsCaption` | app1.py:129-130 | a confidence ≤ 0.7 or a failed agreement leaves the caption unchanged, whatever the history |
| `Stabilizer.CaptionChange` | app1.py:129-138 | the caption changes iff the agreement holds, the confidence is > 0.7 strictly, and the label differs from the last one (or the caption is empty); if it changes, the label is added at the end and a full caption loses its oldest entry, order kept |
| `Stabilizer.SteadyGesture` | app1.py:125-135 | a confident first window puts its label on the empty caption, and the same output again keeps the caption as it is |
| `Stabilizer.ClassifyInv` | app1.py:127-138 | classifying a window keeps indices in 0..11 and the caption at most 5 long, free of adjacent repeats and drawn from the vocabulary |
| `Stabilizer.NextInv` | app1.py:121-138 | every frame keeps the window at most 30 long and the invariant above |
| `Stabilizer.RunInv` | app1.py:107-138 | the invariant holds after any session, starting from empty lists |
| `Stabilizer.RunCaption` | app1.py:107-138 | after any session, the caption is the last five of the confirmed labels with each run of repeats merged into one |
| `Pipeline.Session.constructor` | app1.py:107-109 | a session starts with empty window, predictions and caption, and the labels of line 9 |
| `Pipeline.Session.Step` | app1.py:121-138 | one frame's in-place update equals `Next` on the old state; it records the frame and keeps the invariant; the window is the last 30 frames and the caption is the last five merged confirmed labels |
| `Pipeline.Session.Push` | app1.py:122-123 | appending to the window and slicing it to the last 30 |
| `Pipeline.Session.Observe` | app1.py:126-138 | classifying the full window in place equals `Classify` on the old state |
| `Pipeline.Session.AppendLabel` | app1.py:131-135 | the nested duplicate test in place equals `Emit` |
| `Pipeline.Session.CaptionText` | app1.py:141 | the drawn caption text splits back into exactly the caption list |
| `Pipeline.Session.ProcessFrame` | app1.py:114-141 | a failed capture changes nothing and draws nothing; otherwise the detection is flattened, the state advances by `Next`, and the caption text is produced |

## Left out

- Webcam capture, `cap.read`, `release`, `waitKey` and the stop button (app1.py:99-117, 146-151). These are device and UI input. The loop's termination depends on them, so the model processes one frame per call. A failed capture is the `None` case of `ProcessFrame`'s argument.
- `mediapipe_detection` (app1.py:18-24). It does a colour conversion and calls MediaPipe. Its result appears in the model only as a `Detection`: four optional landmark lists, and nothing else of it is used.
- Model loading and `model.predict` (app1.py:12, 126). These are a TensorFlow network. The model has a `predict` function from a window to 12 reals and places no other constraint on it.
- Any failure inside `predict`. The network needs all 30 vectors to have the same length, and with standard landmark counts they always have 1662 entries (`Keypoints.StandardLength`). A ragged window would make NumPy raise, and the model does not represent that error.
- The Streamlit page: CSS, title, sidebar text and placeholders (app1.py:35-98, 144). This is presentation only.
- Drawing the banner and text onto the frame (app1.py:140-142). Only the string `' '.join(sentence)` is modelled, as `Caption.Render`.
- Floating point. Probabilities and coordinates are `real`, and NaN is not modelled. Only comparisons matter: argmax, `> 0.7`, and the zero fill.
- Protobuf truthiness for landmark groups. A group counts as present or absent. Present with an empty landmark list flattens to nothing.
- `Stabilizer.Agrees` carries no `ensures` of its own. `AgreementIsMinimum` states what it means, and `Stabilizer.Confirm`'s own contract leaves the agreement half to `CaptionChange` and `GateKeepsCaption`.
