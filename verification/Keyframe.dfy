/** wd_client_video_keyframe_validate of src/client/video_keyframe_recovery.c. */
module Keyframe {
  import opened Wrappers
  import opened KeyframeResult
  import AnnexB
  import Av1

  datatype Codec = H264 | H265 | AV1 | OtherCodec

  /** An empty or unknown stream is invalid; otherwise each codec's units decide. */
  method Validate(codec: Codec, data: seq<Byte>) returns (result: Result)
    ensures data == [] || codec == OtherCodec ==> result == InvalidBitstream
    ensures data != [] && codec == AV1 ==> result == Av1.Verdict(data)
    ensures data != [] && codec in {H264, H265} ==> result == AnnexB.Verdict(codec == H265, data)
  {
    if data == [] || codec == OtherCodec {
      return InvalidBitstream;
    }
    if codec == AV1 {
      result := Av1.Validate(data);
    } else {
      result := AnnexB.Validate(codec == H265, data);
    }
  }
}
