# Rectify handle: subscription lifecycle and frame admission

A Dafny model of `RectifyHandle`, the image-rectification stage of the
perception pipeline. It subscribes to the raw camera topic only while someone
listens to the rectified-image topic. It drops three frames out of every
four. It rejects frames whose size differs from the calibration, and it
debounces frames closer than 10 ms to the last accepted one. It hands the rest
to an undistortion implementation, then publishes the processing time followed
by the rectified image.

- `messages.dfy` (module `Messages`): the frame and header, the 32-bit widths
  of the C++ fields, the colour/mono encoding choice, and the two publications.
- `admission.dfy` (module `Admission`): the decisions of `connectCb` and
  `imageCb` as pure step functions. It also has runs over sequences of
  callbacks and the lemmas about those runs: lifecycle, decimation cadence,
  debounce spacing, publication order and headers.
- `rectify_handle.dfy` (module `Rectify`): class `RectifyHandle`. Its fields are
  the initialised flag, the loaded calibration, the subscription flag, the
  decimation counter and `last_img_stamp_`. Two ghost logs record the
  subscribe/shutdown calls and the publications. Its methods are proved to
  follow the step functions.

Timestamps are integer nanoseconds, so `min_image_dt_ = 0.01 s` is
`MinImageDtNs = 10_000_000`. The decode result and the undistortion result are
boolean inputs to `ImageCb`.

The documented intent of this stage is that a frame whose undistortion fails
is dropped without any publication, and that a decode failure changes no
state. Where that intent and the code disagree, the model follows the code:

- If the undistortion call throws, the exception is caught and logged. The
  latency value and the (unfinished) image are then still published. The
  documented intent says such a frame is dropped.
- A decode failure happens after `last_img_stamp_` has been moved to the
  frame's stamp, so that update stays. The documented intent says "no state
  change".
- Decimation lets through the frame that arrives with the counter at 3. The
  counter is reset to 0 before the resolution check, so a wrong-sized frame
  also resets it.
- The debounce compares `|last - stamp|`. A frame at least 10 ms older than the
  last accepted one is accepted, and `last_img_stamp_` moves backwards
  (`OlderFrameAccepted`).
- The expected size is a C++ `int` and is compared with the message's
  `uint32_t` fields. The `int` is converted to unsigned first (`AsUnsigned`).

## Model

| member | source | states |
|---|---|---|
| `Messages.AsUnsigned` | src/2_estimation/0_image_elab/src/libs/rectify_handle.cpp:122 | the `int` parameter converted for comparison with a `uint32_t` agrees with it modulo 2^32 and equals it when it is non-negative |
| `Messages.DecodedEncoding` | src/2_estimation/0_image_elab/src/libs/rectify_handle.cpp:135-138 | the decoded frame is BGR8 exactly when the input encoding is a colour encoding, and MONO8 otherwise |
| `Admission.Chosen` | src/2_estimation/0_image_elab/src/libs/rectify_handle.cpp:152-161 | the reference implementation is called exactly when `default_implementation_` is set |
| `Admission.ConnectCbStep` | src/2_estimation/0_image_elab/src/libs/rectify_handle.cpp:101-109 | afterwards the subscription exists iff the subscriber count is positive; it subscribes iff there was no subscription and the count is positive, shuts down iff there was one and the count is zero, and otherwise makes no call |
| `Admission.ConnectCbIdempotent` | src/2_estimation/0_image_elab/src/libs/rectify_handle.cpp:101-109 | a second `connectCb` with an unchanged subscriber count neither subscribes nor shuts down |
| `Admission.ConnectRunLifecycle` | src/2_estimation/0_image_elab/src/libs/rectify_handle.cpp:96-110 | over any sequence of subscriber counts, the subscription is active iff the last count is positive; the subscribe/shutdown calls strictly alternate (never a double subscribe, never a shutdown of nothing); there is exactly one call per zero/non-zero crossing |
| `Admission.ImageStep` | src/2_estimation/0_image_elab/src/libs/rectify_handle.cpp:112-171 | one `imageCb`. The counter stays in 0..3. A frame is skipped iff the counter is below 3, and then only the counter moves. Otherwise the counter becomes 0 and the exits are, in order: resolution mismatch, debounce (`|last - stamp| < 10 ms`), decode failure, publish. `last_img_stamp_` becomes the frame's stamp exactly when the debounce is passed, even if decoding then fails. Nothing is published except on reaching the algorithm step. That step publishes one latency value, then one image carrying the input header and decoded encoding, whether or not the algorithm threw |
| `Admission.Deliver` | src/2_estimation/0_image_elab/src/libs/rectify_handle.cpp:112-171 | consecutive `imageCb` calls give one outcome per delivered frame, and at most one accepted stamp per frame |
| `Admission.DecimationPhase` | src/2_estimation/0_image_elab/src/libs/rectify_handle.cpp:113-119 | in a run started with counter `c`, delivery `i` passes the decimation iff `(i + c) mod 4 == 3`, i.e. exactly when it arrives with the counter at 3 |
| `Admission.DecimationCount` | src/2_estimation/0_image_elab/src/libs/rectify_handle.cpp:113-119 | of `n` deliveries started with counter `c`, exactly `(n + c) / 4` pass the decimation |
| `Admission.DecimationRate` | src/2_estimation/0_image_elab/src/libs/rectify_handle.cpp:113-119 | of any four consecutive deliveries exactly one passes, and of `n` deliveries at most ceil(n/4) do |
| `Admission.PublicationOrder` | src/2_estimation/0_image_elab/src/libs/rectify_handle.cpp:147-170 | over any run, the publications are (latency, image) pairs, one pair per frame that reached the algorithm step. The image headers, in order, are exactly the headers of those delivered frames |
| `Admission.DebounceSpacing` | src/2_estimation/0_image_elab/src/libs/rectify_handle.cpp:126-129 | over any run, each accepted stamp is at least 10 ms from the previous accepted one (the first from the initial `last_img_stamp_`). `last_img_stamp_` ends as the last accepted stamp, or unchanged if none was accepted |
| `Admission.DebouncePair` | src/2_estimation/0_image_elab/src/libs/rectify_handle.cpp:113-129 | take two well-sized, decodable frames four deliveries apart, both passing decimation, the first published. The three frames between them are skipped, and the second is published iff its stamp is at least 10 ms from the first's |
| `Admission.OlderFrameAccepted` | src/2_estimation/0_image_elab/src/libs/rectify_handle.cpp:126-129 | any well-sized, decodable frame arriving past the decimation at least 10 ms older than `last_img_stamp_` is published and moves `last_img_stamp_` back to its own, earlier, stamp |
| `Rectify.RectifyHandle.constructor` | src/2_estimation/0_image_elab/src/libs/rectify_handle.cpp:17-20 | a new handle is not initialised, has no parameters and no subscription, has its counter at 0, and has made no call and no publication |
| `Rectify.RectifyHandle.OnInit` | src/2_estimation/0_image_elab/src/libs/rectify_handle.cpp:22-29 | sets the initialised flag and stores the loaded parameters. It sets `last_img_stamp_` to the current time and evaluates `connectCb` once. It publishes nothing and leaves the counter alone |
| `Rectify.RectifyHandle.ConnectCb` | src/2_estimation/0_image_elab/src/libs/rectify_handle.cpp:96-110 | afterwards the subscription exists iff the subscriber count is positive. The transport log grows by `Subscribe`, by `Shutdown`, or not at all (when the state already matched the demand) |
| `Rectify.RectifyHandle.ImageCb` | src/2_estimation/0_image_elab/src/libs/rectify_handle.cpp:112-171 | follows `ImageStep` field by field: a decimated frame changes only the counter; a mismatch throws with the counter at 0 and nothing else changed; a debounced frame leaves the stamp; a decode failure keeps the new stamp and publishes nothing; reaching the algorithm appends exactly `[Latency, RectifiedImage(header, encoding, implementation, ok)]` to the publication log |
| `Rectify.StartAndDeliverFour` | src/2_estimation/0_image_elab/src/libs/rectify_handle.cpp:112-171 | a node started with one subscriber and a 640x480 calibration subscribes. Of four frames, the first three are skipped whatever their size (no size check runs for them) and the fourth is published exactly once, latency value first, under its own header, even if its undistortion threw |

## Left out

- Parameter loading (`loadVariable`, `loadParameters`) reads the ROS parameter server. `OnInit` takes the loaded values as a `Calibration` argument. The exception thrown for a missing parameter is not modelled.
- `OnInit` requires the counter to be within 0..3. The counter is a static that every `imageCb` keeps in that range.
- The decimation counter is a function-local `static` in the C++, so all instances share it. The model gives each handle its own counter. That matches the C++ only when one `RectifyHandle` exists per process; with several handles they share one `cnt`, so the 1-in-4 rate holds across the whole process rather than per handle.
- The OpenCV camera matrix and distortion vector are not built. `Calibration` only carries the nine values they are built from. The distortion `Mat1d(1,4)` is filled with five values.
- The undistortion implementations and the `cv_bridge` conversion are calls into code outside this model. Their results are the `algoOk` and `decodeOk` inputs, and the output image's pixels are not modelled. `IsColor` lists the colour encodings of the image-encodings library.
- The mutex in `connectCb` is not modelled. Concurrency is out of scope, and `ConnectCb` is one atomic method.
- The clock (`ros::Time::now()`) is not modelled. The start-up time is a parameter, and the latency value is a `Latency` event without its floating-point seconds.
- The debounce compares double-precision seconds with 0.01. The model compares integer nanoseconds with 10,000,000, so rounding exactly at the 10 ms boundary is not modelled.
- Advertising, subscribing, shutting down and publishing are transport calls. They appear as the `subscribed` flag and the two ghost logs.
- After the resolution-mismatch exception leaves the callback, the process is not modelled. The outcome `ResolutionMismatch` records the throw, and later calls continue from the state left behind.
- `grab_frame_node.cpp` is the entry point of another node: it initialises ROS, drives a `GrabFrameHandle` (not part of this model) through `onInit`, and spins. It does not create a `RectifyHandle` and is not modelled.
