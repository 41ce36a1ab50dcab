/** The device as a whole (Core/Inc/Program.h): the mute button, the live and
    link LEDs, the capture pipeline and the volume library's target level,
    held in one explicit record instead of the `Audio::_instance` global. */
module Program {
  import opened Ints
  import MuteToggle
  import AudioCore

  datatype Device = Device(
    muteButton: MuteToggle.MuteButton,
    audio: AudioCore.Audio,
    targetVolume: int,   // `target_volume_dB` of the SVC library, in 0.5 dB steps
    liveLed: bool,
    linkLed: bool)

  /** The pipeline's buffers have their constructed sizes and the volume
      target is within the library's limits. */
  predicate Valid(d: Device) {
    AudioCore.Valid(d.audio) && AudioCore.VolumeMin <= d.targetVolume <= AudioCore.VolumeMax
  }

  /** The device after construction: unmuted, not running, both LEDs off and
      the volume target set to 1 by the volume control's constructor. */
  function New(): (d: Device)
    ensures Valid(d)
    ensures !MuteToggle.IsMuted(d.muteButton) && !d.audio.running
    ensures !d.liveLed && !d.linkLed
    ensures d.targetVolume == 1
  {
    Device(MuteToggle.New(), AudioCore.New(), 1, false, false)
  }

  /** One iteration of the foreground loop: `_muteButton.run()` followed by
      `_audio.setLed()`. */
  function ForegroundStep(d: Device, pin: bool, now: Uint32): (r: Device)
    ensures r.muteButton == MuteToggle.Run(d.muteButton, pin, now)
    ensures r.liveLed <==> d.audio.running && !MuteToggle.IsMuted(r.muteButton)
    ensures r == d.(muteButton := r.muteButton, liveLed := r.liveLed)
  {
    var m := MuteToggle.Run(d.muteButton, pin, now);
    d.(muteButton := m, liveLed := AudioCore.LiveLed(d.audio, MuteToggle.IsMuted(m)))
  }

  /** After a foreground iteration the live LED is lit exactly when the next
      DMA callback would process and transmit a block. */
  lemma LiveLedShowsStreaming(d: Device, pin: bool, now: Uint32,
                              equaliser: AudioCore.Transform, volume: AudioCore.Transform, txStatus: int)
    requires Valid(d)
    ensures var r := ForegroundStep(d, pin, now);
            (r.liveLed <==> AudioCore.HalfComplete(r.audio, MuteToggle.IsMuted(r.muteButton), equaliser, volume, txStatus).calls != []) &&
            (r.liveLed <==> AudioCore.Complete(r.audio, MuteToggle.IsMuted(r.muteButton), equaliser, volume, txStatus).calls != [])
  {
  }
}
