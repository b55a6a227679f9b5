/** The frame loop's state as an object: the three lists the loop in `main`
    appends to and re-slices in place, and one method per captured frame. */
module Pipeline {

  import opened Optional
  import opened Slices
  import opened Numpy
  import opened Keypoints
  import opened Caption
  import opened Stabilizer

  class Session {
    /** The trained network and its labels, fixed for the session. */
    const model: Classifier

    var sequence: Window
    var predictions: seq<nat>
    var sentence: seq<string>

    /** Every keypoint vector appended so far. */
    ghost var frames: seq<FeatureVector>

    function Snapshot(): (r: State)
      reads this
    {
      State(sequence, predictions, sentence)
    }

    ghost predicate Valid()
      reads this
    {
      && Snapshot() == Run(model, frames)
      && forall i | 0 <= i < |model.actions| :: IsWord(model.actions[i])
    }

    /** Lines 107-109: a session starts with empty buffers; the labels are
        those of line 9. */
    constructor (predict: Window -> Probabilities)
      ensures Valid() && model == Classifier(predict, Actions)
      ensures frames == [] && Snapshot() == Initial
    {
      ActionsAreWords();
      model := Classifier(predict, Actions);
      sequence, predictions, sentence := [], [], [];
      frames := [];
    }

    /** Lines 121-138: append the frame's keypoints to the window and, once
        the window is full, classify it and update the caption. */
    method Step(keypoints: FeatureVector)
      requires Valid()
      modifies this
      ensures Valid() && frames == old(frames) + [keypoints]
      ensures Snapshot() == Next(old(Snapshot()), keypoints, model)
      ensures Inv(Snapshot(), model.actions)
      ensures sequence == Last(frames, WindowSize)
      ensures sentence == Last(Collapse(ConfirmedLabels(model, frames)), CaptionLimit)
    {
      ghost var before := Snapshot();
      Push(keypoints);
      assert Snapshot() == before.(sequence := Slide(before.sequence, keypoints));
      if |sequence| == WindowSize {
        Observe();
      }
      assert Snapshot() == Next(before, keypoints, model);
      frames := frames + [keypoints];
      assert Snapshot() == Run(model, frames) by {
        RunSnoc(model, old(frames), keypoints);
      }
      assert Inv(Snapshot(), model.actions) by {
        RunInv(model, frames);
      }
      assert sequence == Last(frames, WindowSize) by {
        RunWindow(model, frames);
      }
      assert sentence == Last(Collapse(ConfirmedLabels(model, frames)), CaptionLimit) by {
        RunCaption(model, frames);
      }
    }

    /** Lines 122-123: append to the window and keep its last 30 entries. */
    method Push(keypoints: FeatureVector)
      modifies this`sequence
      ensures sequence == Last(old(sequence) + [keypoints], WindowSize)
    {
      sequence := sequence + [keypoints];
      if |sequence| > WindowSize {
        sequence := sequence[|sequence| - WindowSize..];
      }
    }

    /** Lines 126-138: classify the full window, record the predicted index,
        apply the agreement check and the confidence gate, and keep the last
        five labels. */
    method Observe()
      modifies this`predictions, this`sentence
      ensures Snapshot() == Classify(old(Snapshot()), model.predict(sequence), model.actions)
    {
      var res := model.predict(sequence);
      var top := Argmax(res);
      ghost var confirmed := Confirm(model.actions, predictions, res);
      predictions := predictions + [top];
      ghost var emitted := if confirmed.Some? then Emit(sentence, confirmed.value) else sentence;
      if Agrees(predictions, top) {
        if res[top] > Threshold {
          AppendLabel(model.actions[top]);
        }
      }
      assert sentence == emitted;
      if |sentence| > CaptionLimit {
        sentence := sentence[|sentence| - CaptionLimit..];
      }
      assert sentence == Last(emitted, CaptionLimit);
    }

    /** Lines 131-135: add a confirmed label unless it repeats the last one. */
    method AppendLabel(candidate: string)
      modifies this`sentence
      ensures sentence == Emit(old(sentence), candidate)
    {
      if |sentence| > 0 {
        if candidate != sentence[|sentence| - 1] {
          sentence := sentence + [candidate];
        }
      } else {
        sentence := sentence + [candidate];
      }
    }

    /** Line 141: the caption text drawn on the frame. */
    function CaptionText(): (text: string)
      reads this
      requires Valid()
      ensures Split(text) == sentence
    {
      RunInv(model, frames);
      RenderRoundTrip(sentence);
      Render(sentence)
    }

    /** Lines 114-141 for one iteration: a failed capture is skipped and
        changes nothing; otherwise the detection is flattened, the state
        advances, and the caption text is produced. */
    method ProcessFrame(capture: Option<Detection>) returns (caption: Option<string>)
      requires Valid()
      modifies this
      ensures Valid()
      ensures capture.None? ==> caption.None? && unchanged(this)
      ensures capture.Some? ==>
        && frames == old(frames) + [ExtractKeypoints(capture.value)]
        && Snapshot() == Next(old(Snapshot()), ExtractKeypoints(capture.value), model)
        && caption == Some(Render(sentence))
    {
      match capture
      case None =>
        caption := None;
      case Some(detection) =>
        Step(ExtractKeypoints(detection));
        caption := Some(CaptionText());
    }
  }

}
