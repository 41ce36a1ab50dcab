/** The debounced push button of Core/Inc/Button.h: a two-state machine that
    reports "pressed" once the (optionally inverted) pin reading has stayed
    pressed for at least 50 ms, measured on the wrapping 32-bit millisecond
    tick. The pin level and the tick are inputs of each poll. */
module Debounce {
  import opened Ints

  /** Hold time a press must last before it is reported. */
  const DebounceDelayMillis: int := 50

  datatype InternalState = Idle | DebounceDelay

  datatype Button = Button(pressedState: bool, internalState: InternalState, lastTime: Uint32)

  /** The result of one `isPressed()` call: the reported level and the state
      the button is left in. */
  datatype Poll = Poll(pressed: bool, next: Button)

  /** One input sample: the raw pin level and the tick counter at that call. */
  datatype Sample = Sample(pin: bool, tick: Uint32)

  /** A freshly constructed button. */
  function New(pressedState: bool): (b: Button)
    ensures b.pressedState == pressedState
    ensures b.internalState == Idle && b.lastTime == 0
  {
    Button(pressedState, Idle, 0)
  }

  /** The effective reading: with `pressedState` set the pin is inverted, so
      a low pin means pressed. */
  function Active(pressedState: bool, pin: bool): (r: bool)
    ensures pressedState ==> (r <==> !pin)
    ensures !pressedState ==> (r <==> pin)
  {
    pin != pressedState
  }

  /** `Button::isPressed()`, given the pin level and `HAL_GetTick()`. */
  function IsPressed(b: Button, pin: bool, now: Uint32): (r: Poll)
    ensures r.next.pressedState == b.pressedState
    // released: reported false and back to Idle, whatever the state was
    ensures !Active(b.pressedState, pin) ==> !r.pressed && r.next == b.(internalState := Idle)
    // a press seen from Idle starts the delay at the current tick
    ensures Active(b.pressedState, pin) && b.internalState == Idle ==>
              !r.pressed && r.next == b.(internalState := DebounceDelay, lastTime := now)
    // while delaying, report whether 50 ms have elapsed; the state is kept
    ensures Active(b.pressedState, pin) && b.internalState == DebounceDelay ==>
              r.next == b && (r.pressed <==> WrapSub32(now, b.lastTime) >= DebounceDelayMillis)
    // a call that starts in Idle never reports pressed
    ensures b.internalState == Idle ==> !r.pressed
  {
    if !Active(b.pressedState, pin) then
      Poll(false, b.(internalState := Idle))
    else
      match b.internalState
      case Idle => Poll(false, b.(internalState := DebounceDelay, lastTime := now))
      case DebounceDelay => Poll(WrapSub32(now, b.lastTime) >= DebounceDelayMillis, b)
  }

  /** The state after polling once per sample of `trace`, in order. */
  function After(b: Button, trace: seq<Sample>): Button
    decreases |trace|
  {
    if |trace| == 0 then b
    else
      var s := trace[|trace| - 1];
      IsPressed(After(b, trace[..|trace| - 1]), s.pin, s.tick).next
  }

  /** The level reported by the poll of `trace[k]`. */
  function Output(b: Button, trace: seq<Sample>, k: nat): bool
    requires k < |trace|
  {
    IsPressed(After(b, trace[..k]), trace[k].pin, trace[k].tick).pressed
  }

  /** Every reading from `trace[j]` to `trace[k]` inclusive was pressed. */
  ghost predicate HeldBetween(pressedState: bool, trace: seq<Sample>, j: nat, k: nat)
    requires j <= k < |trace|
  {
    forall i :: j <= i <= k ==> Active(pressedState, trace[i].pin)
  }

  /** Polling never changes which level counts as pressed. */
  lemma {:induction false} AfterKeepsPressedState(b: Button, trace: seq<Sample>)
    ensures After(b, trace).pressedState == b.pressedState
    decreases |trace|
  {
    if |trace| > 0 {
      AfterKeepsPressedState(b, trace[..|trace| - 1]);
    }
  }

  /** The reading at `trace[j]` begins a pressed run: it is the first sample
      or follows a released reading. */
  ghost predicate RunStart(pressedState: bool, trace: seq<Sample>, j: nat)
    requires j < |trace|
  {
    j == 0 || !Active(pressedState, trace[j - 1].pin)
  }

  /** From reset, a button in DebounceDelay has seen an unbroken run of pressed
      readings up to now, and its `lastTime` is the tick of the reading that
      began the run; a button back in Idle has just seen a release. */
  lemma {:induction false} DelayWitness(pressedState: bool, trace: seq<Sample>)
    ensures var b := After(New(pressedState), trace);
            b.internalState == DebounceDelay ==>
              exists j :: 0 <= j < |trace| && RunStart(pressedState, trace, j) &&
                          b.lastTime == trace[j].tick &&
                          HeldBetween(pressedState, trace, j, |trace| - 1)
    ensures var b := After(New(pressedState), trace);
            |trace| > 0 && b.internalState == Idle ==> !Active(pressedState, trace[|trace| - 1].pin)
    decreases |trace|
  {
    if |trace| > 0 {
      var n := |trace| - 1;
      var prefix := trace[..n];
      var s := trace[n];
      var before := After(New(pressedState), prefix);
      AfterKeepsPressedState(New(pressedState), prefix);
      DelayWitness(pressedState, prefix);
      if Active(pressedState, s.pin) {
        if before.internalState == Idle {
          if n > 0 {
            assert prefix[n - 1] == trace[n - 1];
          }
          assert RunStart(pressedState, trace, n);
          assert HeldBetween(pressedState, trace, n, n);
        } else {
          var j :| 0 <= j < n && RunStart(pressedState, prefix, j) && before.lastTime == prefix[j].tick &&
                   HeldBetween(pressedState, prefix, j, n - 1);
          if j > 0 {
            assert prefix[j - 1] == trace[j - 1];
          }
          assert RunStart(pressedState, trace, j);
          assert HeldBetween(pressedState, trace, j, n);
        }
      }
    }
  }

  /** A reported press needs an unbroken run of pressed readings that began
      at least 50 ticks (on the wrapping counter) before the reporting call. */
  lemma PressNeedsHeldRun(pressedState: bool, trace: seq<Sample>, k: nat)
    requires k < |trace|
    requires Output(New(pressedState), trace, k)
    ensures exists j :: 0 <= j < k && RunStart(pressedState, trace, j) &&
                        HeldBetween(pressedState, trace, j, k) &&
                        WrapSub32(trace[k].tick, trace[j].tick) >= DebounceDelayMillis
  {
    var prefix := trace[..k];
    var before := After(New(pressedState), prefix);
    AfterKeepsPressedState(New(pressedState), prefix);
    DelayWitness(pressedState, prefix);
    var j :| 0 <= j < k && RunStart(pressedState, prefix, j) && before.lastTime == prefix[j].tick &&
             HeldBetween(pressedState, prefix, j, k - 1);
    if j > 0 {
      assert prefix[j - 1] == trace[j - 1];
    }
    assert RunStart(pressedState, trace, j);
    assert HeldBetween(pressedState, trace, j, k);
  }

  /** While the button is held in DebounceDelay its state, and so `lastTime`,
      is never refreshed. */
  lemma {:induction false} HeldKeepsState(b: Button, trace: seq<Sample>)
    requires b.internalState == DebounceDelay
    requires forall i :: 0 <= i < |trace| ==> Active(b.pressedState, trace[i].pin)
    ensures After(b, trace) == b
    decreases |trace|
  {
    if |trace| > 0 {
      HeldKeepsState(b, trace[..|trace| - 1]);
    }
  }

  /** While held, every poll compares the current tick with the same
      `lastTime`, the tick at which the press was first seen. */
  lemma HeldOutputs(b: Button, trace: seq<Sample>)
    requires b.internalState == DebounceDelay
    requires forall i :: 0 <= i < |trace| ==> Active(b.pressedState, trace[i].pin)
    ensures forall k :: 0 <= k < |trace| ==>
              (Output(b, trace, k) <==> WrapSub32(trace[k].tick, b.lastTime) >= DebounceDelayMillis)
  {
    forall k | 0 <= k < |trace|
      ensures Output(b, trace, k) <==> WrapSub32(trace[k].tick, b.lastTime) >= DebounceDelayMillis
    {
      HeldKeepsState(b, trace[..k]);
    }
  }

  /** Once reported while held, a press stays reported on every later held
      poll, as long as the elapsed time does not wrap past 2^32 ms. */
  lemma {:induction false} PressLatches(b: Button, trace: seq<Sample>)
    requires b.internalState == DebounceDelay
    requires forall i :: 0 <= i < |trace| ==> Active(b.pressedState, trace[i].pin)
    requires forall i :: 0 < i < |trace| ==>
               WrapSub32(trace[i - 1].tick, b.lastTime) <= WrapSub32(trace[i].tick, b.lastTime)
    requires |trace| > 0 && Output(b, trace, 0)
    ensures forall k :: 0 <= k < |trace| ==> Output(b, trace, k)
  {
    HeldOutputs(b, trace);
    var k := 0;
    while k < |trace|
      invariant 0 <= k <= |trace|
      invariant forall i :: 0 <= i < k ==> WrapSub32(trace[i].tick, b.lastTime) >= DebounceDelayMillis
      invariant k > 0 ==> WrapSub32(trace[k - 1].tick, b.lastTime) >= DebounceDelayMillis
    {
      k := k + 1;
    }
  }
}
