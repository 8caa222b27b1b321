/** Messages exchanged with the publish/subscribe transport: the raw frame the
    rectifier receives, the header it copies onto its output, and the two kinds
    of publication it makes (a latency metric and a rectified image). */
module Messages {

  /** `uint32_t`, the width of `sensor_msgs/Image`'s `height` and `width`. */
  type uint32 = x: int | 0 <= x < 0x1_0000_0000

  /** `int`, the width of the expected image size read from the parameters. */
  type int32 = x: int | -0x8000_0000 <= x < 0x8000_0000

  /** C++'s conversion of an `int` to `unsigned int`, applied when an `int`
      is compared with a `uint32_t`: a negative value wraps around modulo 2^32. */
  function AsUnsigned(x: int32): (r: uint32)
    ensures r % 0x1_0000_0000 == x % 0x1_0000_0000
    ensures 0 <= x ==> r == x
  {
    if x < 0 then x + 0x1_0000_0000 else x
  }

  /** `std_msgs/Header`: sequence number, capture time (integer nanoseconds)
      and the id of the frame the image was taken in. */
  datatype Header = Header(seqNo: nat, stamp: nat, frameId: string)

  /** `sensor_msgs/Image` as far as the rectifier looks at it; the pixel
      buffer itself is not modelled. */
  datatype Frame = Frame(header: Header, height: uint32, width: uint32, encoding: string)

  const Bgr8: string := "bgr8"
  const Mono8: string := "mono8"

  /** The colour encodings of `sensor_msgs::image_encodings::isColor`. */
  predicate IsColor(encoding: string)
  {
    encoding in ["rgb8", "bgr8", "rgba8", "bgra8", "rgb16", "bgr16", "rgba16", "bgra16"]
  }

  /** The encoding a frame has once `cv_bridge` has shared it: 3-channel BGR
      for a colour input, single-channel otherwise. */
  function DecodedEncoding(encoding: string): (r: string)
    ensures r == Bgr8 || r == Mono8
    ensures r == Bgr8 <==> IsColor(encoding)
  {
    if IsColor(encoding) then Bgr8 else Mono8
  }

  /** The two undistortion implementations the node can be configured with. */
  datatype Implementation = Professor | Student

  /** What the rectifier publishes. `Latency` is a value on the processing-time
      topic (the seconds value itself is not modelled); `RectifiedImage` is the
      output frame, with the header and encoding copied from the decoded input,
      the implementation that was called, and whether that call returned
      normally (`undistorted`) or threw. */
  datatype Publication =
    | Latency
    | RectifiedImage(header: Header, encoding: string, impl: Implementation, undistorted: bool)
}
