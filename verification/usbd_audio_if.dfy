/** The USB audio-class interface callbacks of
    USB_DEVICE/App/usbd_audio_if.cpp and the two I2S DMA completion
    callbacks, as functions of the explicit device record. */
module UsbAudioIf {
  import opened Ints
  import AudioCore
  import MuteToggle
  import Program

  /** A host command's outcome: the new device and the `int8_t` status
      returned to the USB audio class. */
  datatype Reply = Reply(device: Program.Device, status: int)

  /** A DMA interrupt's outcome: the new device, the calls made into the
      equaliser, the volume stage and the USB transmitter, and whether the
      fatal handler was entered. */
  datatype Interrupt = Interrupt(device: Program.Device, calls: seq<AudioCore.Call>, halted: bool)

  /** `Audio_Init`: lights the link LED; the pipeline is untouched. */
  function AudioInit(d: Program.Device, audioFreq: Uint32, volume: Uint32, options: Uint32): (r: Reply)
    ensures r.status == AudioCore.UsbdOk
    ensures r.device.linkLed
    ensures r.device == d.(linkLed := true)
  {
    Reply(d.(linkLed := true), AudioCore.UsbdOk)
  }

  /** `Audio_DeInit`: nothing to do. */
  function AudioDeInit(d: Program.Device, options: Uint32): (r: Reply)
    ensures r.status == AudioCore.UsbdOk && r.device == d
  {
    Reply(d, AudioCore.UsbdOk)
  }

  /** `Audio_Record`: start the pipeline and return the HAL's status. */
  function AudioRecord(d: Program.Device, halStatus: int): (r: Reply)
    ensures r.status == halStatus
    ensures r.device == d.(audio := AudioCore.Start(d.audio, halStatus).audio)
    ensures r.device.audio.running <==> halStatus == AudioCore.HalOk || d.audio.running
  {
    var c := AudioCore.Start(d.audio, halStatus);
    Reply(d.(audio := c.audio), c.status)
  }

  /** `Audio_VolumeCtl`: rescale and forward the host volume; always OK. */
  function AudioVolumeCtl(d: Program.Device, vol: int): (r: Reply)
    requires IsInt16(vol)
    ensures r.status == AudioCore.UsbdOk
    ensures r.device == d.(targetVolume := AudioCore.SetVolume(vol))
    ensures AudioCore.VolumeMin <= r.device.targetVolume <= AudioCore.VolumeMax
  {
    Reply(d.(targetVolume := AudioCore.SetVolume(vol)), AudioCore.UsbdOk)
  }

  /** `Audio_MuteCtl`: the host's mute command is ignored. */
  function AudioMuteCtl(d: Program.Device, cmd: int): (r: Reply)
    ensures r.status == AudioCore.UsbdOk && r.device == d
    ensures MuteToggle.IsMuted(r.device.muteButton) == MuteToggle.IsMuted(d.muteButton) && r.device.audio.running == d.audio.running
  {
    Reply(d, AudioCore.UsbdOk)
  }

  /** `Audio_Stop`: stop the pipeline and return the HAL's status. */
  function AudioStop(d: Program.Device, halStatus: int): (r: Reply)
    ensures r.status == halStatus
    ensures r.device == d.(audio := AudioCore.Stop(d.audio, halStatus).audio)
    ensures r.device.audio.running <==> halStatus != AudioCore.HalOk && d.audio.running
  {
    var c := AudioCore.Stop(d.audio, halStatus);
    Reply(d.(audio := c.audio), c.status)
  }

  /** `Audio_Pause`: pause the pipeline and return the HAL's status. */
  function AudioPause(d: Program.Device, halStatus: int): (r: Reply)
    ensures r.status == halStatus
    ensures r.device == d.(audio := AudioCore.Pause(d.audio, halStatus).audio)
    ensures r.device.audio.running <==> halStatus != AudioCore.HalOk && d.audio.running
  {
    var c := AudioCore.Pause(d.audio, halStatus);
    Reply(d.(audio := c.audio), c.status)
  }

  /** `Audio_Resume`: resume the pipeline and return the HAL's status. */
  function AudioResume(d: Program.Device, halStatus: int): (r: Reply)
    ensures r.status == halStatus
    ensures r.device == d.(audio := AudioCore.Resume(d.audio, halStatus).audio)
    ensures r.device.audio.running <==> halStatus == AudioCore.HalOk || d.audio.running
  {
    var c := AudioCore.Resume(d.audio, halStatus);
    Reply(d.(audio := c.audio), c.status)
  }

  /** `Audio_CommandMgr`: nothing to do. */
  function AudioCommandMgr(d: Program.Device, cmd: int): (r: Reply)
    ensures r.status == AudioCore.UsbdOk && r.device == d
  {
    Reply(d, AudioCore.UsbdOk)
  }

  /** `HAL_I2S_RxHalfCpltCallback`: the first half of the capture buffer is
      ready; only `i2s_halfComplete` runs, with the mute button's flag. */
  function RxHalfCpltCallback(d: Program.Device, equaliser: AudioCore.Transform, volume: AudioCore.Transform,
                              txStatus: int): (r: Interrupt)
    requires Program.Valid(d)
    ensures var b := AudioCore.HalfComplete(d.audio, MuteToggle.IsMuted(d.muteButton), equaliser, volume, txStatus);
            r == Interrupt(d.(audio := b.audio), b.calls, b.halted)
    ensures Program.Valid(r.device)
  {
    var b := AudioCore.HalfComplete(d.audio, MuteToggle.IsMuted(d.muteButton), equaliser, volume, txStatus);
    Interrupt(d.(audio := b.audio), b.calls, b.halted)
  }

  /** `HAL_I2S_RxCpltCallback`: the second half of the capture buffer is
      ready; only `i2s_complete` runs, with the mute button's flag. */
  function RxCpltCallback(d: Program.Device, equaliser: AudioCore.Transform, volume: AudioCore.Transform,
                          txStatus: int): (r: Interrupt)
    requires Program.Valid(d)
    ensures var b := AudioCore.Complete(d.audio, MuteToggle.IsMuted(d.muteButton), equaliser, volume, txStatus);
            r == Interrupt(d.(audio := b.audio), b.calls, b.halted)
    ensures Program.Valid(r.device)
  {
    var b := AudioCore.Complete(d.audio, MuteToggle.IsMuted(d.muteButton), equaliser, volume, txStatus);
    Interrupt(d.(audio := b.audio), b.calls, b.halted)
  }

  /** The DMA interrupts change only the pipeline's buffers: the mute state,
      the LEDs, the volume target and the running flag are untouched, and a
      muted or stopped device makes no calls and cannot halt. */
  lemma InterruptsTouchOnlyBuffers(d: Program.Device, equaliser: AudioCore.Transform, volume: AudioCore.Transform,
                                   txStatus: int)
    requires Program.Valid(d)
    ensures var h := RxHalfCpltCallback(d, equaliser, volume, txStatus);
            h.device == d.(audio := h.device.audio) && h.device.audio.running == d.audio.running &&
            (MuteToggle.IsMuted(d.muteButton) || !d.audio.running ==> h.device == d && h.calls == [] && !h.halted)
    ensures var f := RxCpltCallback(d, equaliser, volume, txStatus);
            f.device == d.(audio := f.device.audio) && f.device.audio.running == d.audio.running &&
            (MuteToggle.IsMuted(d.muteButton) || !d.audio.running ==> f.device == d && f.calls == [] && !f.halted)
  {
  }

  /** Every host command keeps the device well formed, and only Record,
      Stop, Pause and Resume can return a status other than OK. */
  lemma HostCommandsPreserveValid(d: Program.Device, halStatus: int, vol: int, cmd: int,
                                  audioFreq: Uint32, initVolume: Uint32, options: Uint32)
    requires Program.Valid(d) && IsInt16(vol)
    ensures Program.Valid(AudioInit(d, audioFreq, initVolume, options).device) && Program.Valid(AudioDeInit(d, options).device)
    ensures Program.Valid(AudioRecord(d, halStatus).device) && Program.Valid(AudioStop(d, halStatus).device)
    ensures Program.Valid(AudioPause(d, halStatus).device) && Program.Valid(AudioResume(d, halStatus).device)
    ensures Program.Valid(AudioVolumeCtl(d, vol).device) && Program.Valid(AudioMuteCtl(d, cmd).device)
    ensures Program.Valid(AudioCommandMgr(d, cmd).device)
    ensures AudioInit(d, audioFreq, initVolume, options).status == AudioCore.UsbdOk
    ensures AudioDeInit(d, options).status == AudioCore.UsbdOk && AudioVolumeCtl(d, vol).status == AudioCore.UsbdOk
    ensures AudioMuteCtl(d, cmd).status == AudioCore.UsbdOk && AudioCommandMgr(d, cmd).status == AudioCore.UsbdOk
  {
  }
}
