/** Flattening of one frame's MediaPipe Holistic landmarks into the feature
    vector the classifier consumes (`extract_keypoints`). */
module Keypoints {

  import opened Optional

  type FeatureVector = seq<real>

  /** A pose landmark carries a visibility score besides its coordinates. */
  datatype PoseLandmark = PoseLandmark(x: real, y: real, z: real, visibility: real)

  /** Face and hand landmarks carry coordinates only. */
  datatype Landmark = Landmark(x: real, y: real, z: real)

  /** What the Holistic detector reports for one frame; each group is absent
      when it was not detected. */
  datatype Detection = Detection(
    pose: Option<seq<PoseLandmark>>,
    face: Option<seq<Landmark>>,
    leftHand: Option<seq<Landmark>>,
    rightHand: Option<seq<Landmark>>)

  const PoseLandmarks: nat := 33
  const FaceLandmarks: nat := 468
  const HandLandmarks: nat := 21

  /** Values per pose landmark (x, y, z, visibility) and per face or hand
      landmark (x, y, z). */
  const PoseWidth: nat := 4
  const PointWidth: nat := 3

  /** Length of the feature vector when every group is absent or has its
      standard landmark count: 33*4 + 468*3 + 21*3 + 21*3. */
  const FeatureLength: nat := 1662

  function Zeros(n: nat): (r: seq<real>)
    ensures |r| == n
    ensures forall i | 0 <= i < n :: r[i] == 0.0
  {
    seq(n, i => 0.0)
  }

  /** `[[x, y, z, visibility] for res in landmarks]` flattened row by row. */
  function FlattenPose(ps: seq<PoseLandmark>): (r: seq<real>)
    ensures |r| == PoseWidth * |ps|
    ensures forall i | 0 <= i < |ps| ::
      r[4 * i] == ps[i].x && r[4 * i + 1] == ps[i].y &&
      r[4 * i + 2] == ps[i].z && r[4 * i + 3] == ps[i].visibility
  {
    if ps == [] then []
    else
      var rest := FlattenPose(ps[1..]);
      var r := [ps[0].x, ps[0].y, ps[0].z, ps[0].visibility] + rest;
      assert forall i | 1 <= i < |ps| :: ps[i] == ps[1..][i - 1] && r[4 * i] == rest[4 * (i - 1)];
      r
  }

  /** `[[x, y, z] for res in landmarks]` flattened row by row. */
  function FlattenPoints(ps: seq<Landmark>): (r: seq<real>)
    ensures |r| == PointWidth * |ps|
    ensures forall i | 0 <= i < |ps| ::
      r[3 * i] == ps[i].x && r[3 * i + 1] == ps[i].y && r[3 * i + 2] == ps[i].z
  {
    if ps == [] then []
    else
      var rest := FlattenPoints(ps[1..]);
      var r := [ps[0].x, ps[0].y, ps[0].z] + rest;
      assert forall i | 1 <= i < |ps| :: ps[i] == ps[1..][i - 1] && r[3 * i] == rest[3 * (i - 1)];
      r
  }

  /** The pose block: the flattened landmarks, or 33*4 zeros when absent. */
  function PoseBlock(pose: Option<seq<PoseLandmark>>): (r: seq<real>)
    ensures |r| == PoseWidth * if pose.Some? then |pose.value| else PoseLandmarks
    ensures pose.None? ==> forall i | 0 <= i < |r| :: r[i] == 0.0
  {
    match pose
    case Some(ps) => FlattenPose(ps)
    case None => Zeros(PoseLandmarks * PoseWidth)
  }

  /** A face or hand block: the flattened landmarks, or `count`*3 zeros. */
  function PointBlock(points: Option<seq<Landmark>>, count: nat): (r: seq<real>)
    ensures |r| == PointWidth * if points.Some? then |points.value| else count
    ensures points.None? ==> forall i | 0 <= i < |r| :: r[i] == 0.0
  {
    match points
    case Some(ps) => FlattenPoints(ps)
    case None => Zeros(count * PointWidth)
  }

  /** `extract_keypoints`: pose, face, left hand and right hand, in that order. */
  function ExtractKeypoints(d: Detection): (r: FeatureVector)
    ensures |r| == |PoseBlock(d.pose)| + |PointBlock(d.face, FaceLandmarks)|
                 + |PointBlock(d.leftHand, HandLandmarks)| + |PointBlock(d.rightHand, HandLandmarks)|
  {
    PoseBlock(d.pose) + PointBlock(d.face, FaceLandmarks)
      + PointBlock(d.leftHand, HandLandmarks) + PointBlock(d.rightHand, HandLandmarks)
  }

  /** A group that is absent or has its standard landmark count. */
  predicate Standard<T>(group: Option<seq<T>>, count: nat)
  {
    group.None? || |group.value| == count
  }

  /** Each block has a fixed width whether the group was detected with its
      standard landmark count or replaced by zeros. */
  lemma BlockLengths(d: Detection)
    ensures Standard(d.pose, PoseLandmarks) ==> |PoseBlock(d.pose)| == 132
    ensures Standard(d.face, FaceLandmarks) ==> |PointBlock(d.face, FaceLandmarks)| == 1404
    ensures Standard(d.leftHand, HandLandmarks) ==> |PointBlock(d.leftHand, HandLandmarks)| == 63
    ensures Standard(d.rightHand, HandLandmarks) ==> |PointBlock(d.rightHand, HandLandmarks)| == 63
  {
  }

  /** With standard landmark counts the feature vector always has 1662
      entries, so every vector the window holds has the same length. */
  lemma StandardLength(d: Detection)
    requires Standard(d.pose, PoseLandmarks) && Standard(d.face, FaceLandmarks)
    requires Standard(d.leftHand, HandLandmarks) && Standard(d.rightHand, HandLandmarks)
    ensures |ExtractKeypoints(d)| == FeatureLength
  {
    BlockLengths(d);
  }

  /** The layout of the feature vector: the pose block first, then the face,
      the left hand and the right hand, each at its own offset; an absent
      group occupies its place with zeros. */
  lemma {:induction false} Layout(d: Detection)
    ensures var r, p, f, l := ExtractKeypoints(d), |PoseBlock(d.pose)|,
                              |PointBlock(d.face, FaceLandmarks)|, |PointBlock(d.leftHand, HandLandmarks)|;
      && r[..p] == PoseBlock(d.pose)
      && r[p..p + f] == PointBlock(d.face, FaceLandmarks)
      && r[p + f..p + f + l] == PointBlock(d.leftHand, HandLandmarks)
      && r[p + f + l..] == PointBlock(d.rightHand, HandLandmarks)
    ensures d.pose.None? ==> forall i | 0 <= i < 132 :: ExtractKeypoints(d)[i] == 0.0
    ensures d.pose.Some? ==> forall i | 0 <= i < |d.pose.value| ::
      ExtractKeypoints(d)[4 * i] == d.pose.value[i].x &&
      ExtractKeypoints(d)[4 * i + 1] == d.pose.value[i].y &&
      ExtractKeypoints(d)[4 * i + 2] == d.pose.value[i].z &&
      ExtractKeypoints(d)[4 * i + 3] == d.pose.value[i].visibility
  {
    var a, b, c, e := PoseBlock(d.pose), PointBlock(d.face, FaceLandmarks),
                      PointBlock(d.leftHand, HandLandmarks), PointBlock(d.rightHand, HandLandmarks);
    var r := ExtractKeypoints(d);
    assert r == a + b + c + e;
    assert r[..|a|] == a;
    assert r[|a|..|a| + |b|] == b;
    assert r[|a| + |b|..|a| + |b| + |c|] == c;
    assert r[|a| + |b| + |c|..] == e;
  }

  /** A frame in which nothing was detected yields 1662 zeros. */
  lemma NothingDetected()
    ensures ExtractKeypoints(Detection(None, None, None, None)) == Zeros(FeatureLength)
  {
  }

}
