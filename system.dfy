/** The control loop: every cycle pulls a camera frame, hands it to the tracker
    stamped with the elapsed milliseconds, and moves the pointer to whatever
    result the tracker currently holds. The detector's callbacks, which run on
    the detector's own thread, are modelled as atomic events interleaved
    between cycles. */
module SystemControl {
  import opened Tracking

  /** The calls the pointer device offers. The loop only ever issues MoveTo. */
  datatype PointerCommand = MoveTo(x: int, y: int) | Click | Grab | Release

  /** Something that happens while the loop runs: one loop cycle, with the frame
      the camera returned (None when it had none) and the clock reading taken
      for the timestamp; or one detector callback reporting hands. */
  datatype Event =
    | Cycle(frame: Option<Frame>, now: real)
    | Detection(hands: seq<seq<Landmark>>, image: Frame, timestampMs: int)

  /** The timestamp handed to the tracker: milliseconds since the loop started, truncated toward zero. */
  function ElapsedMs(start: real, now: real): (ms: int)
    ensures start <= now ==> 0 <= ms
    ensures start <= now ==> ms as real <= (now - start) * 1000.0 < ms as real + 1.0
    ensures now < start ==> ms as real - 1.0 < (now - start) * 1000.0 <= ms as real
  {
    TruncateTowardZero((now - start) * 1000.0)
  }

  /** A clock that does not go backward gives timestamps that do not go backward. */
  lemma ElapsedMsMonotone(start: real, t1: real, t2: real)
    requires t1 <= t2
    ensures ElapsedMs(start, t1) <= ElapsedMs(start, t2)
  {
    TruncateMonotone((t1 - start) * 1000.0, (t2 - start) * 1000.0);
  }

  /** The pointer commands of one cycle, given whether the camera produced a
      frame and what the tracker's slot holds. */
  function CycleCommands(hasFrame: bool, slot: Option<TrackingResult>): (cmds: seq<PointerCommand>)
    ensures |cmds| <= 1
    ensures |cmds| == 1 <==> hasFrame && slot.Some?
    ensures forall c :: c in cmds ==> slot.Some? && c == MoveTo(slot.value.cursorPositionX, slot.value.cursorPositionY)
  {
    if hasFrame && slot.Some? then [MoveTo(slot.value.cursorPositionX, slot.value.cursorPositionY)] else []
  }

  /** The pressed flag of the result never influences what a cycle emits. */
  lemma CycleIgnoresPressed(hasFrame: bool, r: TrackingResult)
    ensures CycleCommands(hasFrame, Some(r)) == CycleCommands(hasFrame, Some(r.(pressed := !r.pressed)))
  {
  }

  /** A detector callback that stores a result. */
  predicate Publishes(e: Event)
  {
    e.Detection? && |e.hands| > 0 && |e.hands[0]| > 0
  }

  function SlotAfterEvent(slot: Option<TrackingResult>, e: Event): Option<TrackingResult>
  {
    match e
    case Cycle(_, _) => slot
    case Detection(hands, _, _) => CallbackSlot(slot, hands)
  }

  function CommandsOfEvent(slot: Option<TrackingResult>, e: Event): seq<PointerCommand>
  {
    match e
    case Cycle(frame, _) => CycleCommands(frame.Some?, slot)
    case Detection(_, _, _) => []
  }

  function TimestampsOfEvent(start: real, e: Event): seq<int>
  {
    if e.Cycle? && e.frame.Some? then [ElapsedMs(start, e.now)] else []
  }

  /** The tracker's slot after a run of events, starting from `slot`. */
  function SlotAfter(slot: Option<TrackingResult>, events: seq<Event>): Option<TrackingResult>
  {
    if events == [] then slot
    else SlotAfterEvent(SlotAfter(slot, events[..|events| - 1]), events[|events| - 1])
  }

  /** All pointer commands emitted during a run of events, in order. */
  function CommandsOf(slot: Option<TrackingResult>, events: seq<Event>): seq<PointerCommand>
  {
    if events == [] then []
    else
      var init := events[..|events| - 1];
      CommandsOf(slot, init) + CommandsOfEvent(SlotAfter(slot, init), events[|events| - 1])
  }

  /** All timestamps handed to the tracker during a run of events, in order. */
  function TimestampsOf(start: real, events: seq<Event>): seq<int>
  {
    if events == [] then []
    else TimestampsOf(start, events[..|events| - 1]) + TimestampsOfEvent(start, events[|events| - 1])
  }

  /** The loop never presses, releases or clicks: every command is a move. */
  lemma {:induction false} OnlyMoves(slot: Option<TrackingResult>, events: seq<Event>)
    ensures forall c :: c in CommandsOf(slot, events) ==> c.MoveTo?
  {
    if events != [] {
      OnlyMoves(slot, events[..|events| - 1]);
    }
  }

  /** Running a concatenation is running its parts one after the other. */
  lemma {:induction false} SlotAfterAppend(slot: Option<TrackingResult>, a: seq<Event>, b: seq<Event>)
    ensures SlotAfter(slot, a + b) == SlotAfter(SlotAfter(slot, a), b)
  {
    if b == [] {
      assert a + b == a;
    } else {
      assert (a + b)[..|a + b| - 1] == a + b[..|b| - 1];
      SlotAfterAppend(slot, a, b[..|b| - 1]);
    }
  }

  /** Once the slot holds a result, no event ever empties it again. */
  lemma {:induction false} SlotNeverCleared(slot: Option<TrackingResult>, events: seq<Event>)
    requires slot.Some?
    ensures SlotAfter(slot, events).Some?
  {
    if events != [] {
      SlotNeverCleared(slot, events[..|events| - 1]);
    }
  }

  /** Events that publish nothing leave the slot exactly as it was. */
  lemma {:induction false} NoPublicationKeepsSlot(slot: Option<TrackingResult>, events: seq<Event>)
    requires forall j :: 0 <= j < |events| ==> !Publishes(events[j])
    ensures SlotAfter(slot, events) == slot
  {
    if events != [] {
      NoPublicationKeepsSlot(slot, events[..|events| - 1]);
    }
  }

  /** Last write wins: the slot holds the result of the most recent publishing
      callback, whatever came before it. */
  lemma {:induction false} LastWriteWins(slot: Option<TrackingResult>, events: seq<Event>, k: nat)
    requires k < |events| && Publishes(events[k])
    requires forall j :: k < j < |events| ==> !Publishes(events[j])
    ensures SlotAfter(slot, events) == Some(Averaged(events[k].hands[0]))
  {
    if k == |events| - 1 {
    } else {
      LastWriteWins(slot, events[..|events| - 1], k);
    }
  }

  /** Before anything has been published, a fresh tracker makes the loop emit nothing. */
  lemma {:induction false} NoMoveBeforePublication(events: seq<Event>)
    requires forall j :: 0 <= j < |events| ==> !Publishes(events[j])
    ensures CommandsOf(None, events) == []
  {
    if events != [] {
      NoMoveBeforePublication(events[..|events| - 1]);
      NoPublicationKeepsSlot(None, events[..|events| - 1]);
    }
  }

  /** Every result the slot holds has pressed == false, starting from an empty slot. */
  lemma {:induction false} NeverPressed(slot: Option<TrackingResult>, events: seq<Event>)
    requires slot.Some? ==> !slot.value.pressed
    ensures SlotAfter(slot, events).Some? ==> !SlotAfter(slot, events).value.pressed
  {
    if events != [] {
      NeverPressed(slot, events[..|events| - 1]);
    }
  }

  /** Once a result has been published, every later cycle that gets a frame
      emits exactly one move, to whatever the slot then holds (possibly stale). */
  lemma LaterFramedCyclesMove(slot: Option<TrackingResult>, events: seq<Event>, i: nat, k: nat)
    requires i <= k < |events|
    requires SlotAfter(slot, events[..i]).Some?
    requires events[k].Cycle? && events[k].frame.Some?
    ensures var held := SlotAfter(slot, events[..k]);
      held.Some? && CommandsOfEvent(held, events[k]) == [MoveTo(held.value.cursorPositionX, held.value.cursorPositionY)]
  {
    assert events[..k] == events[..i] + events[i..k];
    SlotAfterAppend(slot, events[..i], events[i..k]);
    SlotNeverCleared(SlotAfter(slot, events[..i]), events[i..k]);
  }

  /** The clock read at each cycle is never earlier than the start reading and never goes backward. */
  ghost predicate ClockForward(start: real, events: seq<Event>)
  {
    && (forall i :: 0 <= i < |events| && events[i].Cycle? ==> start <= events[i].now)
    && (forall i, j :: 0 <= i < j < |events| && events[i].Cycle? && events[j].Cycle? ==> events[i].now <= events[j].now)
  }

  /** Every value is non-negative and no value is smaller than one before it. */
  ghost predicate NonDecreasingFromZero(ts: seq<int>)
  {
    && (forall i :: 0 <= i < |ts| ==> 0 <= ts[i])
    && (forall i, j :: 0 <= i < j < |ts| ==> ts[i] <= ts[j])
  }

  lemma {:induction false} TimestampsWithin(start: real, events: seq<Event>, bound: real)
    requires forall i :: 0 <= i < |events| && events[i].Cycle? ==> start <= events[i].now <= bound
    ensures forall t :: t in TimestampsOf(start, events) ==> 0 <= t <= ElapsedMs(start, bound)
  {
    if events != [] {
      var init := events[..|events| - 1];
      TimestampsWithin(start, init, bound);
      var last := events[|events| - 1];
      if last.Cycle? {
        ElapsedMsMonotone(start, last.now, bound);
      }
    }
  }

  /** With a clock that never goes backward, the timestamps handed to the
      tracker are non-negative and non-decreasing. */
  lemma {:induction false} TimestampsMonotone(start: real, events: seq<Event>)
    requires ClockForward(start, events)
    ensures NonDecreasingFromZero(TimestampsOf(start, events))
  {
    if events != [] {
      var init, last := events[..|events| - 1], events[|events| - 1];
      var before, ts := TimestampsOf(start, init), TimestampsOf(start, events);
      assert ClockForward(start, init);
      TimestampsMonotone(start, init);
      if last.Cycle? && last.frame.Some? {
        var latest := ElapsedMs(start, last.now);
        assert start <= last.now;
        assert forall i :: 0 <= i < |init| && init[i].Cycle? ==> start <= init[i].now <= last.now;
        TimestampsWithin(start, init, last.now);
        assert ts == before + [latest];
        forall i, j | 0 <= i < j < |ts| ensures ts[i] <= ts[j] {
          if j == |before| {
            assert ts[i] == before[i] && before[i] in before;
          }
        }
      } else {
        assert TimestampsOfEvent(start, last) == [];
        assert ts == before;
      }
    }
  }

  /** The loop's owner: the camera and the pointer device become the frame
      inputs and the emitted command list. */
  class SystemController {
    const tracker: TrackingController

    constructor (tracker: TrackingController)
      ensures this.tracker == tracker
    {
      this.tracker := tracker;
    }

    /** One iteration of the loop: no frame, no call at all; otherwise ask the
        tracker, and move the pointer when it returns a result. Returns the
        pointer commands and the timestamp handed to the tracker. */
    method Step(frame: Option<Frame>, start: real, now: real) returns (cmds: seq<PointerCommand>, stamp: Option<int>)
      ensures cmds == CycleCommands(frame.Some?, tracker.lastResult)
      ensures stamp == if frame.Some? then Some(ElapsedMs(start, now)) else None
    {
      cmds, stamp := [], None;
      if frame.Some? {
        var ms := ElapsedMs(start, now);
        var result := tracker.Track(frame.value, ms);
        stamp := Some(ms);
        if result.Some? {
          cmds := [MoveTo(result.value.cursorPositionX, result.value.cursorPositionY)];
        }
      }
    }

    /** The loop over a bounded run of events: cycles run Step, detector
        callbacks run the tracker's callback. Accumulates every command and
        every timestamp. */
    method Start(start: real, events: seq<Event>) returns (cmds: seq<PointerCommand>, stamps: seq<int>)
      modifies tracker
      ensures tracker.lastResult == SlotAfter(old(tracker.lastResult), events)
      ensures cmds == CommandsOf(old(tracker.lastResult), events)
      ensures stamps == TimestampsOf(start, events)
    {
      cmds, stamps := [], [];
      var i := 0;
      while i < |events|
        invariant 0 <= i <= |events|
        invariant tracker.lastResult == SlotAfter(old(tracker.lastResult), events[..i])
        invariant cmds == CommandsOf(old(tracker.lastResult), events[..i])
        invariant stamps == TimestampsOf(start, events[..i])
      {
        assert events[..i + 1][..i] == events[..i];
        match events[i] {
          case Cycle(frame, now) =>
            var emitted, stamp := Step(frame, start, now);
            cmds := cmds + emitted;
            if stamp.Some? {
              stamps := stamps + [stamp.value];
            }
          case Detection(hands, image, timestampMs) =>
            var _ := tracker.ProcessResult(hands, image, timestampMs);
        }
        i := i + 1;
      }
      assert events[..i] == events;
    }
  }
}
