/** The mute button of Core/Inc/MuteButton.h: a debounced, inverted button
    on the mute pin whose level is turned into a toggle on each rising
    edge. */
module MuteToggle {
  import opened Ints
  import Debounce

  datatype MuteButton = MuteButton(button: Debounce.Button, pressed: bool, muted: bool)

  /** A freshly constructed mute button: the pin reads low when pressed, and
      the device starts unmuted. */
  function New(): (m: MuteButton)
    ensures m.button == Debounce.New(true)
    ensures !m.pressed && !m.muted
  {
    MuteButton(Debounce.New(true), false, false)
  }

  /** `MuteButton::isMuted()`: reads the mute flag; being a function of the
      record, it changes nothing. */
  function IsMuted(m: MuteButton): (r: bool)
    ensures r <==> m.muted
  {
    m.muted
  }

  /** The edge detector of `MuteButton::run()`, given the level that
      `isPressed()` returned. */
  function Toggle(m: MuteButton, level: bool): (r: MuteButton)
    ensures r.button == m.button
    ensures r.pressed == level
    ensures r.muted <==> (m.muted != (level && !m.pressed))
  {
    if level then
      if !m.pressed then m.(pressed := true, muted := !m.muted) else m
    else
      m.(pressed := false)
  }

  /** `MuteButton::run()`: poll the button, then feed its level to the edge
      detector. */
  function Run(m: MuteButton, pin: bool, now: Uint32): (r: MuteButton)
    ensures var p := Debounce.IsPressed(m.button, pin, now);
            r.button == p.next &&
            r.pressed == p.pressed &&
            (r.muted <==> (m.muted != (p.pressed && !m.pressed)))
  {
    var p := Debounce.IsPressed(m.button, pin, now);
    Toggle(m.(button := p.next), p.pressed)
  }

  /** The edge detector applied to a sequence of levels, in order. */
  function ToggleAll(m: MuteButton, levels: seq<bool>): MuteButton
    decreases |levels|
  {
    if |levels| == 0 then m
    else Toggle(ToggleAll(m, levels[..|levels| - 1]), levels[|levels| - 1])
  }

  /** The number of false-to-true transitions in `levels`, counting a true
      first level as a rising edge from the initial released state. */
  function RisingEdges(levels: seq<bool>): nat
    decreases |levels|
  {
    if |levels| == 0 then 0
    else
      var n := |levels| - 1;
      var rise := levels[n] && (n == 0 || !levels[n - 1]);
      RisingEdges(levels[..n]) + (if rise then 1 else 0)
  }

  /** Toggle law: starting from reset, the mute flag is the parity of the
      number of rising edges, and `_pressed` is the last level seen. */
  lemma {:induction false} ToggleLaw(levels: seq<bool>)
    ensures var m := ToggleAll(New(), levels);
            (m.muted <==> RisingEdges(levels) % 2 == 1) &&
            (m.pressed <==> |levels| > 0 && levels[|levels| - 1])
    decreases |levels|
  {
    if |levels| > 0 {
      var n := |levels| - 1;
      var prefix := levels[..n];
      ToggleLaw(prefix);
      if n > 0 {
        assert prefix[n - 1] == levels[n - 1];
      }
    }
  }

  /** While the level stays true the mute flag does not change again. */
  lemma {:induction false} HoldDoesNotToggle(m: MuteButton, levels: seq<bool>)
    requires m.pressed
    requires forall i :: 0 <= i < |levels| ==> levels[i]
    ensures ToggleAll(m, levels) == m
    decreases |levels|
  {
    if |levels| > 0 {
      HoldDoesNotToggle(m, levels[..|levels| - 1]);
    }
  }

  /** The mute button polled once per sample of `trace`, in order. */
  function RunAll(m: MuteButton, trace: seq<Debounce.Sample>): MuteButton
    decreases |trace|
  {
    if |trace| == 0 then m
    else
      var s := trace[|trace| - 1];
      Run(RunAll(m, trace[..|trace| - 1]), s.pin, s.tick)
  }

  /** The levels `isPressed()` reports when polled once per sample. */
  function Levels(b: Debounce.Button, trace: seq<Debounce.Sample>): (r: seq<bool>)
    ensures |r| == |trace|
    decreases |trace|
  {
    if |trace| == 0 then []
    else Levels(b, trace[..|trace| - 1]) + [Debounce.Output(b, trace, |trace| - 1)]
  }

  /** Running the mute button is polling its button and feeding the reported
      levels to the edge detector. */
  lemma {:induction false} RunAllIsToggleAll(m: MuteButton, trace: seq<Debounce.Sample>)
    ensures RunAll(m, trace).button == Debounce.After(m.button, trace)
    ensures RunAll(m, trace) == ToggleAll(m, Levels(m.button, trace)).(button := Debounce.After(m.button, trace))
    decreases |trace|
  {
    if |trace| > 0 {
      var n := |trace| - 1;
      RunAllIsToggleAll(m, trace[..n]);
      var levels := Levels(m.button, trace);
      assert levels[..n] == Levels(m.button, trace[..n]);
    }
  }

  /** Toggle law for the whole button: from reset, the device is muted exactly
      when the debounced press level has risen an odd number of times. */
  lemma MutedIsRisingEdgeParity(trace: seq<Debounce.Sample>)
    ensures RunAll(New(), trace).muted <==> RisingEdges(Levels(Debounce.New(true), trace)) % 2 == 1
  {
    RunAllIsToggleAll(New(), trace);
    ToggleLaw(Levels(Debounce.New(true), trace));
  }
}
