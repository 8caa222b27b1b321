/** The decisions `RectifyHandle` takes, as pure functions of its state and its
    inputs: the subscribe/shutdown decision of `connectCb` and the admission
    pipeline of `imageCb` (decimation, resolution check, timestamp debounce,
    decode, undistortion, publication). Runs over sequences of callbacks and
    the properties of those runs are stated here; the class in
    rectify_handle.dfy is proved to follow these functions step by step. */
module Admission {
  import opened Messages

  /** `to_skip`: the number of frames dropped before one is let through. */
  const ToSkip: int := 3

  /** `min_image_dt_` (0.01 s) in nanoseconds. */
  const MinImageDtNs: nat := 10_000_000

  /** The parameters loaded at start-up. The intrinsics and the distortion
      coefficients are only handed to the undistortion implementation. */
  datatype Calibration = Calibration(
    fx: real, fy: real, cx: real, cy: real,
    k1: real, k2: real, k3: real, p1: real, p2: real,
    imageWidth: int32, imageHeight: int32,
    defaultImplementation: bool,
    configFolder: string)

  /** The implementation `default_implementation_` selects. */
  function Chosen(cal: Calibration): (impl: Implementation)
    ensures impl == Professor <==> cal.defaultImplementation
  {
    if cal.defaultImplementation then Professor else Student
  }

  // ---------------------------------------------------------------------
  // Subscription lifecycle (connectCb)
  // ---------------------------------------------------------------------

  /** The transport calls `connectCb` makes on the camera subscription. */
  datatype SubAction = Subscribe | Shutdown

  /** Whether the camera subscription exists afterwards, and the transport
      calls made to get there. */
  datatype Connect = Connect(subscribed: bool, actions: seq<SubAction>)

  /** One evaluation of `connectCb` with the current number of subscribers
      to the rectified-image topic. */
  function ConnectCbStep(subscribed: bool, numSubscribers: nat): (r: Connect)
    ensures r.subscribed <==> numSubscribers > 0
    ensures r.actions == [Subscribe] <==> !subscribed && numSubscribers > 0
    ensures r.actions == [Shutdown] <==> subscribed && numSubscribers == 0
    ensures r.actions == [] <==> subscribed == (numSubscribers > 0)
  {
    if numSubscribers == 0 then
      if subscribed then Connect(false, [Shutdown]) else Connect(false, [])
    else if !subscribed then Connect(true, [Subscribe])
    else Connect(true, [])
  }

  /** A second evaluation with an unchanged subscriber count makes no call. */
  lemma ConnectCbIdempotent(subscribed: bool, numSubscribers: nat)
    ensures var first := ConnectCbStep(subscribed, numSubscribers);
            ConnectCbStep(first.subscribed, numSubscribers) == Connect(first.subscribed, [])
  {
  }

  /** `connectCb` evaluated once per subscriber count in `counts`. */
  function ConnectRun(subscribed: bool, counts: seq<nat>): (r: Connect)
    decreases |counts|
  {
    if counts == [] then Connect(subscribed, [])
    else
      var first := ConnectCbStep(subscribed, counts[0]);
      var rest := ConnectRun(first.subscribed, counts[1..]);
      Connect(rest.subscribed, first.actions + rest.actions)
  }

  /** `acts` alternates strictly between subscribing and shutting down,
      starting from `subscribed` and leaving the subscription in `final`:
      never two subscriptions, never a shutdown of nothing. */
  predicate Alternating(subscribed: bool, acts: seq<SubAction>, final: bool)
    decreases |acts|
  {
    if acts == [] then final == subscribed
    else acts[0] == (if subscribed then Shutdown else Subscribe)
         && Alternating(!subscribed, acts[1..], final)
  }

  /** The number of times the subscriber count crosses between zero and
      non-zero along `counts`, starting from the demand `subscribed`. */
  function Crossings(subscribed: bool, counts: seq<nat>): nat
    decreases |counts|
  {
    if counts == [] then 0
    else (if subscribed == (counts[0] > 0) then 0 else 1) + Crossings(counts[0] > 0, counts[1..])
  }

  /** Over any sequence of subscriber counts: the subscription ends up active
      iff the last count is positive, the transport calls alternate, and there
      is exactly one call per zero/non-zero crossing. */
  lemma {:induction false} ConnectRunLifecycle(subscribed: bool, counts: seq<nat>)
    ensures var r := ConnectRun(subscribed, counts);
            (r.subscribed <==> if counts == [] then subscribed else counts[|counts| - 1] > 0)
            && Alternating(subscribed, r.actions, r.subscribed)
            && |r.actions| == Crossings(subscribed, counts)
    decreases |counts|
  {
    if counts != [] {
      var first := ConnectCbStep(subscribed, counts[0]);
      ConnectRunLifecycle(first.subscribed, counts[1..]);
      var rest := ConnectRun(first.subscribed, counts[1..]);
      if first.actions != [] {
        assert first.subscribed == !subscribed;
        assert (first.actions + rest.actions)[0] == first.actions[0];
        assert (first.actions + rest.actions)[1..] == rest.actions;
      } else {
        assert first.actions + rest.actions == rest.actions;
      }
    }
  }

  // ---------------------------------------------------------------------
  // Frame admission and processing (imageCb)
  // ---------------------------------------------------------------------

  /** The per-frame state: the decimation counter `cnt` and
      `last_img_stamp_` in nanoseconds. */
  datatype FrameState = FrameState(cnt: int, lastStamp: nat)

  /** How one `imageCb` invocation ends. `ResolutionMismatch` is the
      `std::logic_error` thrown out of the callback. */
  datatype Outcome =
    | Skipped
    | ResolutionMismatch
    | Debounced
    | DecodeFailed
    | Published(header: Header, encoding: string)

  /** The new per-frame state, the outcome and the publications of one call. */
  datatype Step = Step(state: FrameState, outcome: Outcome, pubs: seq<Publication>)

  /** The frame's size equals the calibrated one, compared as the C++ does:
      the `int` parameters converted to the message's `uint32_t`. */
  predicate ResolutionMatches(cal: Calibration, f: Frame)
  {
    f.height == AsUnsigned(cal.imageHeight) && f.width == AsUnsigned(cal.imageWidth)
  }

  function AbsDiff(a: nat, b: nat): nat
  {
    if a < b then b - a else a - b
  }

  /** The frame is closer than `min_image_dt_` to the last accepted one. */
  predicate TooClose(lastStamp: nat, stamp: nat)
  {
    AbsDiff(lastStamp, stamp) < MinImageDtNs
  }

  /** The frame got past the debounce, so its stamp became `last_img_stamp_`. */
  predicate PassedDebounce(o: Outcome)
  {
    o.DecodeFailed? || o.Published?
  }

  /** One `imageCb` invocation on frame `f`; `decodeOk` says whether
      `cv_bridge` could share the frame, `algoOk` whether the undistortion
      call returned without throwing. */
  function ImageStep(st: FrameState, cal: Calibration, f: Frame, decodeOk: bool, algoOk: bool): (r: Step)
    // decimation: the counter stays in 0..3 and only a frame arriving with cnt == 3 passes, resetting it
    ensures 0 <= st.cnt <= ToSkip ==> 0 <= r.state.cnt <= ToSkip
    ensures r.outcome == Skipped <==> st.cnt < ToSkip
    ensures r.outcome == Skipped ==> r.state == FrameState(st.cnt + 1, st.lastStamp)
    ensures r.outcome != Skipped ==> r.state.cnt == 0
    // the exits, in order
    ensures r.outcome == ResolutionMismatch <==> ToSkip <= st.cnt && !ResolutionMatches(cal, f)
    ensures r.outcome == Debounced <==>
              ToSkip <= st.cnt && ResolutionMatches(cal, f) && TooClose(st.lastStamp, f.header.stamp)
    ensures r.outcome == DecodeFailed <==>
              ToSkip <= st.cnt && ResolutionMatches(cal, f) && !TooClose(st.lastStamp, f.header.stamp) && !decodeOk
    ensures r.outcome.Published? <==>
              ToSkip <= st.cnt && ResolutionMatches(cal, f) && !TooClose(st.lastStamp, f.header.stamp) && decodeOk
    // last_img_stamp_ moves to the frame's stamp exactly when the debounce is passed, even if decoding then fails
    ensures r.state.lastStamp == if PassedDebounce(r.outcome) then f.header.stamp else st.lastStamp
    // nothing is published unless the algorithm step is reached; then one latency value, then one image,
    // carrying the input's header and decoded encoding, whether or not the algorithm threw
    ensures !r.outcome.Published? ==> r.pubs == []
    ensures r.outcome.Published? ==>
              r.outcome == Published(f.header, DecodedEncoding(f.encoding)) &&
              r.pubs == [Latency, RectifiedImage(f.header, DecodedEncoding(f.encoding), Chosen(cal), algoOk)]
  {
    if st.cnt < ToSkip then
      Step(FrameState(st.cnt + 1, st.lastStamp), Skipped, [])
    else if !ResolutionMatches(cal, f) then
      Step(FrameState(0, st.lastStamp), ResolutionMismatch, [])
    else if TooClose(st.lastStamp, f.header.stamp) then
      Step(FrameState(0, st.lastStamp), Debounced, [])
    else if !decodeOk then
      Step(FrameState(0, f.header.stamp), DecodeFailed, [])
    else
      var encoding := DecodedEncoding(f.encoding);
      Step(FrameState(0, f.header.stamp), Published(f.header, encoding),
           [Latency, RectifiedImage(f.header, encoding, Chosen(cal), algoOk)])
  }

  // ---------------------------------------------------------------------
  // Runs of consecutive frames
  // ---------------------------------------------------------------------

  /** One frame delivered to `imageCb`, with the results of the two calls
      the model does not look into. */
  datatype Delivery = Delivery(frame: Frame, decodeOk: bool, algoOk: bool)

  /** The state after a run of deliveries, the outcome of each, everything
      published, and the stamps that passed the debounce, in order. */
  datatype Run = Run(state: FrameState, outcomes: seq<Outcome>, pubs: seq<Publication>, accepted: seq<nat>)

  /** `imageCb` applied to each delivery in turn. */
  function Deliver(st: FrameState, cal: Calibration, ds: seq<Delivery>): (r: Run)
    ensures |r.outcomes| == |ds|
    ensures |r.accepted| <= |ds|
    decreases |ds|
  {
    if ds == [] then Run(st, [], [], [])
    else
      var d := ds[0];
      var s := ImageStep(st, cal, d.frame, d.decodeOk, d.algoOk);
      var rest := Deliver(s.state, cal, ds[1..]);
      Run(rest.state, [s.outcome] + rest.outcomes, s.pubs + rest.pubs,
          (if PassedDebounce(s.outcome) then [d.frame.header.stamp] else []) + rest.accepted)
  }

  /** Decimation phase: in a run started with counter `cnt`, delivery `i`
      gets past the decimation iff it arrives with the counter at 3. */
  lemma {:induction false} DecimationPhase(st: FrameState, cal: Calibration, ds: seq<Delivery>, i: nat)
    requires 0 <= st.cnt <= ToSkip
    requires i < |ds|
    ensures Deliver(st, cal, ds).outcomes[i] != Skipped <==> (i + st.cnt) % 4 == ToSkip
    decreases |ds|
  {
    var d := ds[0];
    var s := ImageStep(st, cal, d.frame, d.decodeOk, d.algoOk);
    if i > 0 {
      DecimationPhase(s.state, cal, ds[1..], i - 1);
      assert Deliver(st, cal, ds).outcomes[i] == Deliver(s.state, cal, ds[1..]).outcomes[i - 1];
    }
  }

  /** The number of outcomes that got past the decimation. */
  function CountAdmitted(os: seq<Outcome>): nat
    decreases |os|
  {
    if os == [] then 0 else (if os[0] == Skipped then 0 else 1) + CountAdmitted(os[1..])
  }

  /** Of `n` deliveries starting with counter `cnt`, exactly `(n + cnt) / 4`
      get past the decimation. */
  lemma {:induction false} DecimationCount(st: FrameState, cal: Calibration, ds: seq<Delivery>)
    requires 0 <= st.cnt <= ToSkip
    ensures CountAdmitted(Deliver(st, cal, ds).outcomes) == (|ds| + st.cnt) / 4
    decreases |ds|
  {
    if ds != [] {
      var d := ds[0];
      var s := ImageStep(st, cal, d.frame, d.decodeOk, d.algoOk);
      DecimationCount(s.state, cal, ds[1..]);
      var os := Deliver(st, cal, ds).outcomes;
      assert os[1..] == Deliver(s.state, cal, ds[1..]).outcomes;
    }
  }

  /** Of any four consecutive deliveries exactly one gets past the
      decimation, and over `n` deliveries at most ceil(n / 4) do. */
  lemma DecimationRate(st: FrameState, cal: Calibration, ds: seq<Delivery>)
    requires 0 <= st.cnt <= ToSkip
    ensures |ds| == 4 ==> CountAdmitted(Deliver(st, cal, ds).outcomes) == 1
    ensures CountAdmitted(Deliver(st, cal, ds).outcomes) <= (|ds| + 3) / 4
  {
    DecimationCount(st, cal, ds);
  }

  /** Publications come in pairs: a latency value immediately followed by
      an image. */
  predicate Paired(pubs: seq<Publication>)
    decreases |pubs|
  {
    pubs == [] || (2 <= |pubs| && pubs[0] == Latency && pubs[1].RectifiedImage? && Paired(pubs[2..]))
  }

  /** The headers of the published images, in order. */
  function ImageHeaders(pubs: seq<Publication>): seq<Header>
    decreases |pubs|
  {
    if pubs == [] then []
    else (if pubs[0].RectifiedImage? then [pubs[0].header] else []) + ImageHeaders(pubs[1..])
  }

  /** The headers of the frames whose processing reached publication, in order. */
  function PublishedHeaders(os: seq<Outcome>): seq<Header>
    decreases |os|
  {
    if os == [] then []
    else (if os[0].Published? then [os[0].header] else []) + PublishedHeaders(os[1..])
  }

  /** The headers of the frames that were delivered, each paired with its outcome,
      filtered to those that were published. */
  function DeliveredHeaders(ds: seq<Delivery>, os: seq<Outcome>): seq<Header>
    requires |ds| == |os|
    decreases |ds|
  {
    if ds == [] then []
    else (if os[0].Published? then [ds[0].frame.header] else []) + DeliveredHeaders(ds[1..], os[1..])
  }

  lemma ImageHeadersAppend(a: seq<Publication>, b: seq<Publication>)
    ensures ImageHeaders(a + b) == ImageHeaders(a) + ImageHeaders(b)
    decreases |a|
  {
    if a != [] {
      assert (a + b)[0] == a[0];
      assert (a + b)[1..] == a[1..] + b;
      ImageHeadersAppend(a[1..], b);
    } else {
      assert a + b == b;
    }
  }

  lemma PairedAppend(a: seq<Publication>, b: seq<Publication>)
    requires Paired(a) && Paired(b)
    ensures Paired(a + b)
    decreases |a|
  {
    if a != [] {
      assert (a + b)[0] == a[0] && (a + b)[1] == a[1];
      assert (a + b)[2..] == a[2..] + b;
      PairedAppend(a[2..], b);
    } else {
      assert a + b == b;
    }
  }

  /** Over any run: everything published is a sequence of (latency, image)
      pairs, one pair per frame that reached the algorithm step, and the
      images carry exactly the headers of those frames, in delivery order. */
  lemma {:induction false} PublicationOrder(st: FrameState, cal: Calibration, ds: seq<Delivery>)
    ensures var r := Deliver(st, cal, ds);
            Paired(r.pubs)
            && |r.pubs| == 2 * |PublishedHeaders(r.outcomes)|
            && ImageHeaders(r.pubs) == PublishedHeaders(r.outcomes)
            && PublishedHeaders(r.outcomes) == DeliveredHeaders(ds, r.outcomes)
    decreases |ds|
  {
    if ds != [] {
      var d := ds[0];
      var s := ImageStep(st, cal, d.frame, d.decodeOk, d.algoOk);
      var rest := Deliver(s.state, cal, ds[1..]);
      PublicationOrder(s.state, cal, ds[1..]);
      var r := Deliver(st, cal, ds);
      assert r.outcomes[1..] == rest.outcomes;
      ImageHeadersAppend(s.pubs, rest.pubs);
      if s.outcome.Published? {
        assert s.pubs[2..] == [];
        PairedAppend(s.pubs, rest.pubs);
        assert ImageHeaders(s.pubs) == [d.frame.header] by {
          assert s.pubs[1..] == [s.pubs[1]];
          assert s.pubs[1..][1..] == [];
        }
      } else {
        assert s.pubs + rest.pubs == rest.pubs;
      }
    }
  }

  /** Every accepted stamp is at least `min_image_dt_` away from the one
      accepted before it (the first from the initial `last_img_stamp_`). */
  predicate Spaced(lastStamp: nat, stamps: seq<nat>)
    decreases |stamps|
  {
    stamps == [] || (!TooClose(lastStamp, stamps[0]) && Spaced(stamps[0], stamps[1..]))
  }

  /** Over any run: the accepted stamps are pairwise spaced by the debounce
      interval, and `last_img_stamp_` ends as the last accepted stamp (or
      unchanged when none was accepted). */
  lemma {:induction false} DebounceSpacing(st: FrameState, cal: Calibration, ds: seq<Delivery>)
    ensures var r := Deliver(st, cal, ds);
            Spaced(st.lastStamp, r.accepted)
            && r.state.lastStamp == if r.accepted == [] then st.lastStamp else r.accepted[|r.accepted| - 1]
    decreases |ds|
  {
    if ds != [] {
      var d := ds[0];
      var s := ImageStep(st, cal, d.frame, d.decodeOk, d.algoOk);
      DebounceSpacing(s.state, cal, ds[1..]);
      var rest := Deliver(s.state, cal, ds[1..]);
      if PassedDebounce(s.outcome) {
        assert ([d.frame.header.stamp] + rest.accepted)[1..] == rest.accepted;
      } else {
        assert [] + rest.accepted == rest.accepted;
      }
    }
  }

  /** Two frames that both get past the decimation (the second arriving four
      deliveries after the first), both of the calibrated size and both
      decodable: the second is published iff it is at least `min_image_dt_`
      from the first, whatever the three frames in between are. */
  lemma DebouncePair(st: FrameState, cal: Calibration, ds: seq<Delivery>)
    requires st.cnt == ToSkip && |ds| == 5
    requires ResolutionMatches(cal, ds[0].frame) && ds[0].decodeOk
    requires ResolutionMatches(cal, ds[4].frame) && ds[4].decodeOk
    requires !TooClose(st.lastStamp, ds[0].frame.header.stamp)
    ensures var r := Deliver(st, cal, ds);
            r.outcomes[0].Published? && r.outcomes[1] == r.outcomes[2] == r.outcomes[3] == Skipped
            && (r.outcomes[4].Published? <==> !TooClose(ds[0].frame.header.stamp, ds[4].frame.header.stamp))
  {
    var s0 := ImageStep(st, cal, ds[0].frame, ds[0].decodeOk, ds[0].algoOk);
    var s1 := ImageStep(s0.state, cal, ds[1].frame, ds[1].decodeOk, ds[1].algoOk);
    var s2 := ImageStep(s1.state, cal, ds[2].frame, ds[2].decodeOk, ds[2].algoOk);
    var s3 := ImageStep(s2.state, cal, ds[3].frame, ds[3].decodeOk, ds[3].algoOk);
    assert s3.state == FrameState(ToSkip, ds[0].frame.header.stamp);
    assert ds[1..][1..] == ds[2..] && ds[2..][1..] == ds[3..] && ds[3..][1..] == ds[4..];
    assert ds[4..][0] == ds[4];
    var r4 := Deliver(s3.state, cal, ds[4..]);
    var r3 := Deliver(s2.state, cal, ds[3..]);
    var r2 := Deliver(s1.state, cal, ds[2..]);
    var r1 := Deliver(s0.state, cal, ds[1..]);
    assert r3.outcomes == [s3.outcome] + r4.outcomes;
    assert r2.outcomes == [s2.outcome] + r3.outcomes;
    assert r1.outcomes == [s1.outcome] + r2.outcomes;
  }

  /** The debounce compares absolute distances, so a frame at least
      `min_image_dt_` older than the last accepted one is accepted and moves
      `last_img_stamp_` backwards. */
  lemma OlderFrameAccepted(cal: Calibration, f: Frame, last: nat)
    requires ResolutionMatches(cal, f)
    requires f.header.stamp + MinImageDtNs <= last
    ensures var s := ImageStep(FrameState(ToSkip, last), cal, f, true, true);
            s.outcome.Published? && s.state.lastStamp == f.header.stamp < last
  {
  }
}
