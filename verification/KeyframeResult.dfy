/** The answers of the keyframe check of src/client/video_keyframe_recovery.c. */
module KeyframeResult {
  datatype Result = Valid | InvalidBitstream | MissingParameterSets | MissingRandomAccess
}
