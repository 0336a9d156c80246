/**
 The two kinds of model artifact the tool handles, told apart by a marker
 in the file name: the search keeps names ending in a marker, the rename
 step looks for names holding one.
 */
module Artifacts {
  /** Model weights. */
  const WeightsMarker := ".pth"
  /** The feature index. */
  const IndexMarker := ".index"
}
