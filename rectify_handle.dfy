/** `RectifyHandle`: the node object that owns the camera subscription, the
    decimation counter and `last_img_stamp_`, and publishes the rectified
    image and its processing time. Each callback is a method; its effect on
    the fields and on the ghost logs of transport calls and publications is
    tied to the step functions of module Admission. */
module Rectify {
  import opened Messages
  import opened Admission

  datatype Option<T> = None | Some(value: T)

  class RectifyHandle {
    /** `initialized_`: set by `onInit`. */
    var initialized: bool
    /** The parameters read by `loadParameters`; `None` until then. */
    var calibration: Option<Calibration>
    /** Whether `sub_camera_` currently holds a live subscription. */
    var subscribed: bool
    /** The decimation counter (`cnt`, a function-local static in the C++). */
    var cnt: int
    /** `last_img_stamp_` in nanoseconds. */
    var lastStamp: nat

    /** Every subscribe/shutdown call made on the camera topic, in order. */
    ghost var transport: seq<SubAction>
    /** Every publication on the latency and rectified-image topics, in order. */
    ghost var published: seq<Publication>

    /** The state in which frames can be handled: parameters loaded and the
        counter within its cycle. */
    ghost predicate Valid()
      reads this
    {
      initialized && calibration.Some? && 0 <= cnt <= ToSkip
    }

    /** The per-frame part of the state. */
    function State(): FrameState
      reads this
    {
      FrameState(cnt, lastStamp)
    }

    /** The C++ constructor: not yet initialised, no subscription, counter at
        its static initial value 0, nothing called or published. */
    constructor ()
      ensures !initialized && calibration == None && !subscribed
      ensures cnt == 0 && lastStamp == 0
      ensures transport == [] && published == []
    {
      initialized := false;
      calibration := None;
      subscribed := false;
      cnt := 0;
      lastStamp := 0;
      transport := [];
      published := [];
    }

    /** `onInit`: mark initialised, take the loaded parameters, set
        `last_img_stamp_` to the current time `now`, advertise the outputs
        and evaluate `connectCb` once with the current subscriber count. */
    method OnInit(cal: Calibration, now: nat, numSubscribers: nat)
      requires 0 <= cnt <= ToSkip
      modifies this
      ensures Valid()
      ensures calibration == Some(cal) && lastStamp == now
      ensures cnt == old(cnt) && published == old(published)
      ensures var c := ConnectCbStep(old(subscribed), numSubscribers);
              subscribed == c.subscribed && transport == old(transport) + c.actions
    {
      initialized := true;
      calibration := Some(cal);
      lastStamp := now;
      ConnectCb(numSubscribers);
    }

    /** `connectCb`: subscribe to the camera when the rectified-image topic
        has subscribers and there is no subscription; shut the subscription
        down when it has none. Runs atomically. */
    method ConnectCb(numSubscribers: nat)
      requires initialized
      modifies this`subscribed, this`transport
      ensures subscribed <==> numSubscribers > 0
      ensures old(subscribed) == (numSubscribers > 0) ==> transport == old(transport)
      ensures !old(subscribed) && numSubscribers > 0 ==> transport == old(transport) + [Subscribe]
      ensures old(subscribed) && numSubscribers == 0 ==> transport == old(transport) + [Shutdown]
      ensures var c := ConnectCbStep(old(subscribed), numSubscribers);
              subscribed == c.subscribed && transport == old(transport) + c.actions
    {
      if numSubscribers == 0 {
        if subscribed {
          subscribed := false;
          transport := transport + [Shutdown];
        }
      } else if !subscribed {
        subscribed := true;
        transport := transport + [Subscribe];
      }
    }

    /** `imageCb` on frame `f`. `decodeOk` is whether `cv_bridge` could share
        the frame in its target encoding; `algoOk` is whether the configured
        undistortion implementation returned without throwing. */
    method ImageCb(f: Frame, decodeOk: bool, algoOk: bool) returns (outcome: Outcome)
      requires Valid()
      modifies this`cnt, this`lastStamp, this`published
      ensures Valid()
      // a decimated frame only advances the counter
      ensures old(cnt) < ToSkip ==>
                outcome == Skipped && cnt == old(cnt) + 1 && lastStamp == old(lastStamp) && published == old(published)
      // a wrong-sized frame throws with the counter already reset and nothing else changed
      ensures outcome == ResolutionMismatch ==>
                cnt == 0 && lastStamp == old(lastStamp) && published == old(published)
      // a debounced frame leaves last_img_stamp_ alone; a decode failure keeps the new one
      ensures outcome == Debounced ==> lastStamp == old(lastStamp) && published == old(published)
      ensures outcome == DecodeFailed ==> lastStamp == f.header.stamp && published == old(published)
      // reaching the algorithm publishes a latency value then the image, even if the algorithm threw
      ensures outcome.Published? ==>
                lastStamp == f.header.stamp &&
                published == old(published) +
                  [Latency, RectifiedImage(f.header, DecodedEncoding(f.encoding), Chosen(calibration.value), algoOk)]
      ensures var s := ImageStep(old(State()), calibration.value, f, decodeOk, algoOk);
              outcome == s.outcome && State() == s.state && published == old(published) + s.pubs
    {
      if cnt < ToSkip {
        cnt := cnt + 1;
        return Skipped;
      }
      cnt := 0;

      var cal := calibration.value;
      if !ResolutionMatches(cal, f) {
        return ResolutionMismatch;
      }

      if TooClose(lastStamp, f.header.stamp) {
        return Debounced;
      }
      lastStamp := f.header.stamp;

      if !decodeOk {
        return DecodeFailed;
      }
      var encoding := DecodedEncoding(f.encoding);

      // The header and encoding are copied before the undistortion call;
      // an exception from that call is caught and processing goes on.
      published := published + [Latency];
      published := published + [RectifiedImage(f.header, encoding, Chosen(cal), algoOk)];
      outcome := Published(f.header, encoding);
    }
  }

  /** A fresh node started at time `now` with one downstream subscriber and a
      640x480 calibration, receiving four frames, the last of that size and at
      least `min_image_dt_` away from `now`: the first three are decimated
      whatever their stamps and sizes (they never reach the size check), the fourth is published once, with a latency
      value before it, under its own header and decoded encoding, even if its
      undistortion threw. */
  method StartAndDeliverFour(cal: Calibration, now: nat, fs: seq<Frame>, algoOk: bool)
    returns (outcomes: seq<Outcome>, ghost published: seq<Publication>, subscribed: bool)
    requires cal.imageWidth == 640 && cal.imageHeight == 480
    requires |fs| == 4
    requires fs[3].width == 640 && fs[3].height == 480
    requires !TooClose(now, fs[3].header.stamp)
    ensures subscribed
    ensures outcomes == [Skipped, Skipped, Skipped, Published(fs[3].header, DecodedEncoding(fs[3].encoding))]
    ensures published == [Latency, RectifiedImage(fs[3].header, DecodedEncoding(fs[3].encoding), Chosen(cal), algoOk)]
  {
    var h := new RectifyHandle();
    h.OnInit(cal, now, 1);
    var o0 := h.ImageCb(fs[0], true, true);
    var o1 := h.ImageCb(fs[1], true, true);
    var o2 := h.ImageCb(fs[2], true, true);
    var o3 := h.ImageCb(fs[3], true, algoOk);
    outcomes := [o0, o1, o2, o3];
    published := h.published;
    subscribed := h.subscribed;
  }
}
