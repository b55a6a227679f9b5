/** The per-frame stabilisation logic as a pure state machine: the sliding
    window of feature vectors, the history of predicted indices, the
    agreement check, the confidence gate and the caption. */
module Stabilizer {

  import opened Optional
  import opened Slices
  import opened Numpy
  import opened Keypoints
  import opened Caption

  /** Frames per classified window. */
  const WindowSize: nat := 30
  /** Number of recent predictions the agreement check looks at. */
  const AgreementSpan: nat := 10
  /** A label is confirmed only when its probability is strictly above this. */
  const Threshold: real := 0.7

  type Window = seq<FeatureVector>

  /** What the trained network returns for one window: one probability per
      label of the vocabulary. */
  type Probabilities = s: seq<real> | |s| == NumActions witness seq(12, i => 0.0)

  /** A label list with one entry per network output. */
  type Vocabulary = a: seq<string> | |a| == NumActions witness Actions

  /** The trained network together with the labels of its outputs (the
      program's `model` and `actions`). */
  datatype Classifier = Classifier(predict: Window -> Probabilities, actions: Vocabulary)

  /** The three variables the frame loop keeps across frames. */
  datatype State = State(sequence: Window, predictions: seq<nat>, sentence: seq<string>)

  const Initial: State := State([], [], [])

  /** Line 129: the smallest of the last ten predicted indices is `top`, that
      is, `top` is one of them and none is smaller. */
  function Agrees(predictions: seq<int>, top: int): (r: bool)
    requires |predictions| > 0
  {
    Unique(Last(predictions, AgreementSpan))[0] == top
  }

  /** Lines 127-130: the label a window confirms, if any, given the prediction
      history before it and the network's output for it. */
  function Confirm(actions: Vocabulary, history: seq<nat>, res: Probabilities): (r: Option<string>)
    ensures r.Some? ==> res[Argmax(res)] > Threshold && r.value == actions[Argmax(res)]
  {
    var top := Argmax(res);
    if Agrees(history + [top], top) && res[top] > Threshold then Some(actions[top]) else None
  }

  /** Lines 127-138: what a full window does to the state, given the
      network's output for it. */
  function Classify(s: State, res: Probabilities, actions: Vocabulary): (r: State)
    ensures r.sequence == s.sequence
    ensures r.predictions == s.predictions + [Argmax(res)]
    ensures |r.sentence| <= CaptionLimit
  {
    var confirmed := Confirm(actions, s.predictions, res);
    var sentence := if confirmed.Some? then Emit(s.sentence, confirmed.value) else s.sentence;
    State(s.sequence, s.predictions + [Argmax(res)], Last(sentence, CaptionLimit))
  }

  /** Lines 122-123: the window after appending `keypoints`. It holds
      min(|sequence| + 1, 30) vectors. */
  function Slide(sequence: Window, keypoints: FeatureVector): (r: Window)
    ensures |r| == if |sequence| < WindowSize then |sequence| + 1 else WindowSize
  {
    Last(sequence + [keypoints], WindowSize)
  }

  /** Lines 121-138: one captured frame whose keypoints are `keypoints`. */
  function Next(s: State, keypoints: FeatureVector, m: Classifier): (r: State)
    ensures |r.sequence| <= WindowSize
    ensures |r.predictions| == |s.predictions| + if |r.sequence| == WindowSize then 1 else 0
  {
    var window := Slide(s.sequence, keypoints);
    if |window| == WindowSize then Classify(s.(sequence := window), m.predict(window), m.actions)
    else s.(sequence := window)
  }

  /** The state after a session has captured `frames`, from empty buffers. */
  function Run(m: Classifier, frames: seq<FeatureVector>): (r: State)
    ensures |r.sequence| <= WindowSize
    ensures |r.predictions| <= |frames|
  {
    if frames == [] then Initial
    else Next(Run(m, frames[..|frames| - 1]), frames[|frames| - 1], m)
  }

  /** The label that the frame `keypoints` confirms in state `s`, if any: the
      one `Next` passes to the caption. */
  function Confirmed(s: State, keypoints: FeatureVector, m: Classifier): (r: Option<string>)
  {
    var window := Slide(s.sequence, keypoints);
    if |window| == WindowSize then Confirm(m.actions, s.predictions, m.predict(window)) else None
  }

  /** Every label confirmed during a session, in order, repeats included. */
  function ConfirmedLabels(m: Classifier, frames: seq<FeatureVector>): (r: seq<string>)
  {
    if frames == [] then []
    else
      var prev := frames[..|frames| - 1];
      ConfirmedLabels(m, prev) +
      match Confirmed(Run(m, prev), frames[|frames| - 1], m)
      case Some(l) => [l]
      case None => []
  }

  /** What holds of the loop's variables after every frame. */
  predicate Inv(s: State, actions: Vocabulary)
  {
    && |s.sequence| <= WindowSize
    && (forall i | 0 <= i < |s.predictions| :: s.predictions[i] < NumActions)
    && |s.sentence| <= CaptionLimit
    && NoAdjacentDuplicates(s.sentence)
    && (forall i | 0 <= i < |s.sentence| :: s.sentence[i] in actions)
  }

  // ---------------------------------------------------------------- window

  /** The window is a FIFO of capacity 30: a frame is appended, and once the
      window is full the oldest vector is evicted. */
  lemma NextWindow(s: State, keypoints: FeatureVector, m: Classifier)
    requires |s.sequence| <= WindowSize
    ensures Next(s, keypoints, m).sequence ==
      if |s.sequence| < WindowSize then s.sequence + [keypoints] else s.sequence[1..] + [keypoints]
  {
    var w := s.sequence + [keypoints];
    if |s.sequence| == WindowSize {
      assert Last(w, WindowSize) == w[1..];
      assert w[1..] == s.sequence[1..] + [keypoints];
    }
  }

  /** Classification, and with it any change to the predictions and the
      caption, happens only when the window holds exactly 30 vectors; each
      such frame appends exactly one index, the argmax of the network output. */
  lemma ClassifiesOnlyWhenFull(s: State, keypoints: FeatureVector, m: Classifier)
    ensures var n := Next(s, keypoints, m);
      && |n.sequence| <= WindowSize
      && (|n.sequence| < WindowSize ==> n.predictions == s.predictions && n.sentence == s.sentence)
      && (|n.sequence| == WindowSize ==> n.predictions == s.predictions + [Argmax(m.predict(n.sequence))])
  {
  }

  lemma NextSequence(s: State, keypoints: FeatureVector, m: Classifier)
    ensures Next(s, keypoints, m).sequence == Last(s.sequence + [keypoints], WindowSize)
  {
  }

  /** After any number of frames the window is the last min(n, 30) keypoint
      vectors, oldest first. */
  lemma {:induction false} RunWindow(m: Classifier, frames: seq<FeatureVector>)
    ensures Run(m, frames).sequence == Last(frames, WindowSize)
  {
    if frames != [] {
      var prev, x := frames[..|frames| - 1], frames[|frames| - 1];
      var s := Run(m, prev);
      assert frames == prev + [x];
      calc {
        Run(m, frames).sequence;
        Next(s, x, m).sequence;
        { NextSequence(s, x, m); }
        Last(s.sequence + [x], WindowSize);
        { RunWindow(m, prev); }
        Last(Last(prev, WindowSize) + [x], WindowSize);
        { LastAppend(prev, x, WindowSize); }
        Last(frames, WindowSize);
      }
    }
  }

  /** One prediction is recorded per frame from the 30th on, and none before. */
  lemma {:induction false} RunPredictions(m: Classifier, frames: seq<FeatureVector>)
    ensures |Run(m, frames).predictions| ==
      if |frames| < WindowSize then 0 else |frames| - WindowSize + 1
  {
    if frames != [] {
      var prev := frames[..|frames| - 1];
      RunPredictions(m, prev);
      RunWindow(m, prev);
    }
  }

  // ---------------------------------------------------------------- agreement

  /** The agreement check compares the current index with the MINIMUM of the
      last ten predictions (np.unique sorts), and the current index is one of
      them: it holds exactly when the current index is at most every recent
      prediction. With no earlier history it always holds. */
  lemma AgreementIsMinimum(history: seq<nat>, top: nat)
    ensures Agrees(history + [top], top) <==>
      forall p | p in Last(history + [top], AgreementSpan) :: top <= p
    ensures history == [] ==> Agrees(history + [top], top)
  {
    var recent := Last(history + [top], AgreementSpan);
    UniqueHeadIsMinimum(recent);
    assert recent[|recent| - 1] == top;
    if forall p | p in recent :: top <= p {
      assert Unique(recent)[0] in recent;
    }
  }

  /** Only the last ten predictions matter, so keeping the whole history (as
      the program does) and keeping ten give the same decisions. */
  lemma AgreementRecentOnly(predictions: seq<nat>, top: nat)
    requires |predictions| > 0
    ensures Agrees(predictions, top) == Agrees(Last(predictions, AgreementSpan), top)
  {
    LastLast(predictions, AgreementSpan);
  }

  /** The check is on the smallest recent index, not the oldest one and not
      the most frequent one. */
  lemma AgreementExamples()
    ensures Agrees([5, 2], 2)
    ensures !Agrees([2, 5], 5)
    ensures !Agrees([3, 3, 3, 1, 3], 3)
  {
    UniqueHeadIsMinimum([5, 2]);
    UniqueHeadIsMinimum([2, 5]);
    UniqueHeadIsMinimum([3, 3, 3, 1, 3]);
  }

  // ---------------------------------------------------------------- caption

  /** A confidence of at most 0.7 leaves the caption as it was, whatever the
      prediction history; so does a failed agreement check. */
  lemma GateKeepsCaption(s: State, res: Probabilities, actions: Vocabulary)
    requires |s.sentence| <= CaptionLimit
    ensures var top := Argmax(res);
      (res[top] <= Threshold || !Agrees(s.predictions + [top], top)) ==>
        Classify(s, res, actions).sentence == s.sentence
  {
  }

  /** The caption changes exactly when the agreement check holds, the
      confidence is strictly above 0.7 and the label differs from the last
      one shown (an empty caption always takes it). It then gains the label
      at the end, and a full caption loses its oldest entry, order kept. */
  lemma CaptionChange(s: State, res: Probabilities, actions: Vocabulary)
    requires |s.sentence| <= CaptionLimit
    ensures var top, n := Argmax(res), |s.sentence|;
      var changes := Agrees(s.predictions + [top], top) && res[top] > Threshold &&
                     (n == 0 || s.sentence[n - 1] != actions[top]);
      && (Classify(s, res, actions).sentence != s.sentence <==> changes)
      && (changes ==>
            Classify(s, res, actions).sentence == (if n < CaptionLimit then s.sentence else s.sentence[1..]) + [actions[top]])
  {
    var top := Argmax(res);
    var e := Emit(s.sentence, actions[top]);
    EmitTruncated(s.sentence, actions[top]);
    assert Classify(s, res, actions).sentence ==
      if Agrees(s.predictions + [top], top) && res[top] > Threshold then Last(e, CaptionLimit) else s.sentence;
  }

  /** Classifying a window keeps the indices in range and the caption short,
      free of adjacent repeats and drawn from the vocabulary. */
  lemma ClassifyInv(s: State, res: Probabilities, actions: Vocabulary)
    requires Inv(s, actions)
    ensures Inv(Classify(s, res, actions), actions)
  {
    var confirmed := Confirm(actions, s.predictions, res);
    var sentence := if confirmed.Some? then Emit(s.sentence, confirmed.value) else s.sentence;
    assert forall i | 0 <= i < |sentence| :: sentence[i] in actions;
    LastNoAdjacentDuplicates(sentence, CaptionLimit);
  }

  /** A steady, confident gesture from the first full window on: the first
      window puts its label on an empty caption, and the same output again
      leaves the caption as it is. */
  lemma {:induction false} SteadyGesture(sequence: Window, res: Probabilities, actions: Vocabulary)
    requires res[Argmax(res)] > Threshold
    ensures var first := Classify(State(sequence, [], []), res, actions);
      && first.sentence == [actions[Argmax(res)]]
      && Classify(first, res, actions).sentence == first.sentence
  {
    var top := Argmax(res);
    AgreementIsMinimum([], top);
    AgreementIsMinimum([top], top);
    assert [] + [top] == [top];
  }

  /** Every frame keeps the window bounded, the indices in range and the
      caption short, free of adjacent repeats and drawn from the vocabulary. */
  lemma NextInv(s: State, keypoints: FeatureVector, m: Classifier)
    requires Inv(s, m.actions)
    ensures Inv(Next(s, keypoints, m), m.actions)
  {
    var window := Last(s.sequence + [keypoints], WindowSize);
    if |window| == WindowSize {
      ClassifyInv(s.(sequence := window), m.predict(window), m.actions);
    }
  }

  lemma {:induction false} RunInv(m: Classifier, frames: seq<FeatureVector>)
    ensures Inv(Run(m, frames), m.actions)
  {
    if frames != [] {
      RunInv(m, frames[..|frames| - 1]);
      NextInv(Run(m, frames[..|frames| - 1]), frames[|frames| - 1], m);
    }
  }

  /** The caption after any session is the last five of the confirmed labels
      once each run of repeats is merged: no adjacent duplicates, at most
      five, the oldest dropped first. */
  lemma {:induction false} RunCaption(m: Classifier, frames: seq<FeatureVector>)
    ensures Run(m, frames).sentence == Last(Collapse(ConfirmedLabels(m, frames)), CaptionLimit)
  {
    if frames != [] {
      var prev := frames[..|frames| - 1];
      var s := Run(m, prev);
      var c := ConfirmedLabels(m, prev);
      RunCaption(m, prev);
      var window := Last(s.sequence + [frames[|frames| - 1]], WindowSize);
      if |window| == WindowSize {
        var res := m.predict(window);
        match Confirm(m.actions, s.predictions, res)
        case Some(l) =>
          EmitLast(Collapse(c), l);
          CollapseSnoc(c, l);
        case None =>
          LastLast(Collapse(c), CaptionLimit);
          assert c + [] == c;
      } else {
        assert c + [] == c;
      }
    }
  }

  /** Appending a frame to a session is one more step of Next. */
  lemma RunSnoc(m: Classifier, frames: seq<FeatureVector>, keypoints: FeatureVector)
    ensures Run(m, frames + [keypoints]) == Next(Run(m, frames), keypoints, m)
  {
    assert (frames + [keypoints])[..|frames|] == frames;
  }

}
