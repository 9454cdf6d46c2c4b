/**
 * `optimizedResize`: coalesces window resize signals so that the registered
 * callbacks run once per scheduled frame.
 */
module Resize {
  import opened Wrappers

  /** A registered callback, identified by the handler it stands for. */
  type Handler = nat

  class Scheduler {
    /** `callbacks`, in registration order. */
    var callbacks: seq<Handler>
    /** `running`: a deferred run has been scheduled and has not fired yet. */
    var running: bool
    /** Whether `resize` is attached as the window's resize listener. */
    var listening: bool

    /** A scheduler with callbacks is listening for resize signals. */
    ghost predicate Valid()
      reads this
    {
      callbacks != [] ==> listening
    }

    constructor ()
      ensures Valid() && callbacks == [] && !running && !listening
    {
      callbacks := [];
      running := false;
      listening := false;
    }

    /** `resize`: schedule one deferred run, unless one is already pending. */
    method Resize() returns (scheduled: bool)
      requires Valid()
      modifies this
      ensures Valid()
      ensures scheduled == !old(running)
      ensures running
      ensures callbacks == old(callbacks) && listening == old(listening)
    {
      scheduled := false;
      if !running {
        running := true;
        scheduled := true;
      }
    }

    /** `runCallbacks`, the deferred run: invoke every callback in order, then return to idle. */
    method RunCallbacks() returns (invoked: seq<Handler>)
      requires Valid()
      modifies this
      ensures Valid()
      ensures invoked == old(callbacks)
      ensures !running
      ensures callbacks == old(callbacks) && listening == old(listening)
    {
      invoked := [];
      for i := 0 to |callbacks|
        invariant invoked == callbacks[..i]
      {
        invoked := invoked + [callbacks[i]];
      }
      assert callbacks[..|callbacks|] == callbacks;
      running := false;
    }

    /** `addCallback`: append the callback, ignoring a missing (falsy) one. */
    method AddCallback(callback: Option<Handler>)
      modifies this
      ensures callbacks == if callback.Some? then old(callbacks) + [callback.value] else old(callbacks)
      ensures running == old(running) && listening == old(listening)
    {
      if callback.Some? {
        callbacks := callbacks + [callback.value];
      }
    }

    /** `add`: listen for resize signals when no callback is registered yet, then add the callback. */
    method Add(callback: Option<Handler>)
      requires Valid()
      modifies this
      ensures Valid()
      ensures listening == (old(listening) || old(callbacks) == [])
      ensures callbacks == if callback.Some? then old(callbacks) + [callback.value] else old(callbacks)
      ensures running == old(running)
    {
      if callbacks == [] {
        listening := true;
      }
      AddCallback(callback);
    }
  }

  /**
   * Any burst of resize signals arriving before the deferred run fires
   * schedules exactly one run when the scheduler was idle, and none when a
   * run was already pending.
   */
  method ResizeBurst(s: Scheduler, signals: nat) returns (frames: nat)
    requires s.Valid()
    modifies s
    ensures s.Valid()
    ensures frames == if signals > 0 && !old(s.running) then 1 else 0
    ensures s.running == (old(s.running) || signals > 0)
    ensures s.callbacks == old(s.callbacks) && s.listening == old(s.listening)
  {
    frames := 0;
    if signals == 0 {
      return;
    }
    var first := s.Resize();
    frames := if first then 1 else 0;
    for n := 1 to signals
      invariant s.Valid() && s.running
      invariant frames == if !old(s.running) then 1 else 0
      invariant s.callbacks == old(s.callbacks) && s.listening == old(s.listening)
    {
      var again := s.Resize();
      assert !again;
    }
  }
}
