/** The hand tracker: the detector callback that averages the first hand's
    landmarks into a cursor position, and the single-slot mailbox that the
    control loop reads. */
module Tracking {

  datatype Option<+T> = None | Some(value: T)

  /** One keypoint of a detected hand: normalised image coordinates and a depth proxy. */
  datatype Landmark = Landmark(x: real, y: real, z: real)

  /** An RGB camera frame, handed to the detector and otherwise opaque. */
  datatype Frame = Frame(rgb: seq<bv8>)

  /** What the tracker publishes. Both coordinates come from Python's `int()`,
      so they are integers even though the record declares them as floats. */
  datatype TrackingResult = TrackingResult(cursorPositionX: int, cursorPositionY: int, pressed: bool)

  /** Construction parameters. The area sizes are documented as a mapping onto
      the monitor but nothing reads them; the model path only configures the detector. */
  datatype TrackingParams = TrackingParams(areaSizeX: real, areaSizeY: real, modelPath: string)

  /** How one detector callback ended. */
  datatype CallbackOutcome =
    | NoHand             // zero hands reported: nothing is done
    | Stored             // the first hand's average was written to the slot
    | ZeroDivisionError  // a hand with no landmarks: the division raises before the slot is written

  /** Python's `int()` on a float: truncation toward zero. */
  function TruncateTowardZero(r: real): (n: int)
    ensures 0.0 <= r ==> n as real <= r < n as real + 1.0
    ensures r < 0.0 ==> n as real - 1.0 < r <= n as real
  {
    if r >= 0.0 then r.Floor else -((-r).Floor)
  }

  /** Truncation toward zero never reverses the order of two reals. */
  lemma TruncateMonotone(a: real, b: real)
    requires a <= b
    ensures TruncateTowardZero(a) <= TruncateTowardZero(b)
  {
  }

  /** Left-to-right sum, as Python's `sum` over a generator adds its items. */
  function Sum(xs: seq<real>): real
  {
    if xs == [] then 0.0 else Sum(xs[..|xs| - 1]) + xs[|xs| - 1]
  }

  function Mean(xs: seq<real>): real
    requires |xs| > 0
  {
    Sum(xs) / |xs| as real
  }

  function Xs(landmarks: seq<Landmark>): seq<real>
  {
    seq(|landmarks|, i requires 0 <= i < |landmarks| => landmarks[i].x)
  }

  function Ys(landmarks: seq<Landmark>): seq<real>
  {
    seq(|landmarks|, i requires 0 <= i < |landmarks| => landmarks[i].y)
  }

  /** Position of a smallest value. */
  function MinIndex(xs: seq<real>): (k: nat)
    requires |xs| > 0
    ensures k < |xs|
    ensures forall i :: 0 <= i < |xs| ==> xs[k] <= xs[i]
  {
    if |xs| == 1 then 0
    else
      var k := MinIndex(xs[..|xs| - 1]);
      if xs[|xs| - 1] < xs[k] then |xs| - 1 else k
  }

  /** Position of a largest value. */
  function MaxIndex(xs: seq<real>): (k: nat)
    requires |xs| > 0
    ensures k < |xs|
    ensures forall i :: 0 <= i < |xs| ==> xs[i] <= xs[k]
  {
    if |xs| == 1 then 0
    else
      var k := MaxIndex(xs[..|xs| - 1]);
      if xs[k] < xs[|xs| - 1] then |xs| - 1 else k
  }

  function Min(xs: seq<real>): real
    requires |xs| > 0
  {
    xs[MinIndex(xs)]
  }

  function Max(xs: seq<real>): real
    requires |xs| > 0
  {
    xs[MaxIndex(xs)]
  }

  /** A sum of n values that all lie in [lo, hi] lies in [n * lo, n * hi]. */
  lemma {:induction false} SumBounds(xs: seq<real>, lo: real, hi: real)
    requires forall i :: 0 <= i < |xs| ==> lo <= xs[i] <= hi
    ensures |xs| as real * lo <= Sum(xs) <= |xs| as real * hi
  {
    if xs != [] {
      var init := xs[..|xs| - 1];
      assert forall i :: 0 <= i < |init| ==> init[i] == xs[i];
      SumBounds(init, lo, hi);
      assert |xs| as real * lo == |init| as real * lo + lo;
      assert |xs| as real * hi == |init| as real * hi + hi;
    }
  }

  /** The mean of values that all lie in [lo, hi] lies in [lo, hi]. */
  lemma MeanBounds(xs: seq<real>, lo: real, hi: real)
    requires |xs| > 0
    requires forall i :: 0 <= i < |xs| ==> lo <= xs[i] <= hi
    ensures lo <= Mean(xs) <= hi
  {
    SumBounds(xs, lo, hi);
    QuotientBounds(Sum(xs), |xs| as real, lo, hi);
  }

  /** The arithmetic mean lies between the smallest and the largest value. */
  lemma MeanWithinMinMax(xs: seq<real>)
    requires |xs| > 0
    ensures Min(xs) <= Mean(xs) <= Max(xs)
  {
    MeanBounds(xs, Min(xs), Max(xs));
  }

  /** A quotient s / n with n * lo <= s <= n * hi and n positive lies in [lo, hi]. */
  lemma QuotientBounds(s: real, n: real, lo: real, hi: real)
    requires n > 0.0
    requires n * lo <= s <= n * hi
    ensures lo <= s / n <= hi
  {
  }

  /** The mean of values that are all equal to c is c. */
  lemma MeanOfConstant(xs: seq<real>, c: real)
    requires |xs| > 0
    requires forall i :: 0 <= i < |xs| ==> xs[i] == c
    ensures Mean(xs) == c
  {
    MeanBounds(xs, c, c);
  }

  /** The result built from one hand's landmarks: the truncated mean x and
      mean y, never pressed. */
  function Averaged(landmarks: seq<Landmark>): (r: TrackingResult)
    requires |landmarks| > 0
    ensures !r.pressed
    ensures TruncateTowardZero(Min(Xs(landmarks))) <= r.cursorPositionX <= TruncateTowardZero(Max(Xs(landmarks)))
    ensures TruncateTowardZero(Min(Ys(landmarks))) <= r.cursorPositionY <= TruncateTowardZero(Max(Ys(landmarks)))
  {
    var xs, ys := Xs(landmarks), Ys(landmarks);
    MeanWithinMinMax(xs);
    MeanWithinMinMax(ys);
    TruncateMonotone(Min(xs), Mean(xs));
    TruncateMonotone(Mean(xs), Max(xs));
    TruncateMonotone(Min(ys), Mean(ys));
    TruncateMonotone(Mean(ys), Max(ys));
    TrackingResult(TruncateTowardZero(Mean(xs)), TruncateTowardZero(Mean(ys)), false)
  }

  /** The stored coordinates are the truncated means: each lies within one unit
      of its mean, on the side of zero. */
  lemma AveragedIsTruncatedMean(landmarks: seq<Landmark>)
    requires |landmarks| > 0
    ensures var r, mx, my := Averaged(landmarks), Mean(Xs(landmarks)), Mean(Ys(landmarks));
      && (0.0 <= mx ==> r.cursorPositionX as real <= mx < r.cursorPositionX as real + 1.0)
      && (mx < 0.0 ==> r.cursorPositionX as real - 1.0 < mx <= r.cursorPositionX as real)
      && (0.0 <= my ==> r.cursorPositionY as real <= my < r.cursorPositionY as real + 1.0)
      && (my < 0.0 ==> r.cursorPositionY as real - 1.0 < my <= r.cursorPositionY as real)
  {
  }

  /** A hand whose landmarks all sit at one point (x, y) yields that point,
      truncated; it follows from the min/max bounds in Averaged's contract. */
  lemma AveragedOfCoincidentLandmarks(landmarks: seq<Landmark>, x: real, y: real)
    requires |landmarks| > 0
    requires forall i :: 0 <= i < |landmarks| ==> landmarks[i].x == x && landmarks[i].y == y
    ensures Averaged(landmarks) == TrackingResult(TruncateTowardZero(x), TruncateTowardZero(y), false)
  {
  }

  /** The slot after one detector callback reporting `hands`: the first hand's
      average overwrites it when that hand has landmarks; otherwise it is kept. */
  function CallbackSlot(slot: Option<TrackingResult>, hands: seq<seq<Landmark>>): (r: Option<TrackingResult>)
    ensures |hands| == 0 ==> r == slot
    ensures slot.Some? ==> r.Some?
    ensures r != slot ==> |hands| > 0 && |hands[0]| > 0 && r == Some(Averaged(hands[0]))
    ensures |hands| > 0 && |hands[0]| > 0 ==> r == Some(Averaged(hands[0]))
  {
    if |hands| == 0 || |hands[0]| == 0 then slot else Some(Averaged(hands[0]))
  }

  /** Only the first hand is read: any further hands change nothing. */
  lemma CallbackReadsFirstHandOnly(slot: Option<TrackingResult>, hand: seq<Landmark>, others: seq<seq<Landmark>>)
    ensures CallbackSlot(slot, [hand] + others) == CallbackSlot(slot, [hand])
  {
  }

  /** The mailbox between the detector's callback and the control loop. */
  class TrackingController {
    const params: TrackingParams
    var lastResult: Option<TrackingResult>

    /** The detector's construction is outside the model; the slot starts empty. */
    constructor (params: TrackingParams)
      ensures this.params == params
      ensures lastResult == None
    {
      this.params := params;
      lastResult := None;
    }

    /** The detector callback. The frame and the timestamp are accepted and never read. */
    method ProcessResult(hands: seq<seq<Landmark>>, frame: Frame, timestampMs: int) returns (outcome: CallbackOutcome)
      modifies this`lastResult
      ensures lastResult == CallbackSlot(old(lastResult), hands)
      ensures outcome == NoHand <==> |hands| == 0
      ensures outcome == ZeroDivisionError <==> |hands| > 0 && |hands[0]| == 0
      ensures outcome == Stored <==> |hands| > 0 && |hands[0]| > 0
    {
      if |hands| == 0 {
        return NoHand;
      }
      var landmarks := hands[0];
      if |landmarks| == 0 {
        return ZeroDivisionError;
      }
      lastResult := Some(Averaged(landmarks));
      outcome := Stored;
    }

    /** Submits the frame to the detector (no effect on the slot) and returns
        what the slot holds at the time of the call. */
    method Track(frame: Frame, timestampMs: int) returns (r: Option<TrackingResult>)
      ensures r == lastResult
    {
      r := lastResult;
    }
  }
}
