/** An optional value: a landmark group MediaPipe may not have detected,
    a frame the camera may not have delivered, a label the stabiliser may
    not have confirmed. */
module Optional {

  datatype Option<+T> = None | Some(value: T)

}
