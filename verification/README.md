# USB microphone firmware core, modelled in Dafny

This project models the control and data logic of a USB microphone
firmware for an STM32F4 device. The firmware captures I2S audio by circular
DMA. Each half of the capture buffer is narrowed to 16-bit PCM and
duplicated into stereo. It then goes through the ST graphic equaliser and
the ST volume control, and its left channel is sent to the host over USB
audio class. A debounced mute button gates the pipeline, a live LED shows
whether audio is streaming, and the USB host can start, stop, pause and
resume capture and set the volume.

The model is functional. Every firmware object is an immutable record.
Every operation is a pure function from a state and its inputs (pin level,
tick count, HAL/USB status codes, library transforms) to the new state and
its outputs.

- `Ints` (ints.dfy): the C integer behaviour the code depends on.
  `int32_t → int16_t` narrowing keeps the low 16 bits, division truncates
  toward zero, and `uint32_t` subtraction wraps.
- `Debounce` (debounce.dfy): `Button`, an Idle/DebounceDelay machine with
  optional inversion and a 50 ms press threshold. Lemmas cover traces of
  pin samples.
- `MuteToggle` (mute_toggle.dfy): `MuteButton`, a rising-edge toggle on the
  debounced level. `IsMuted` returns the flag. The toggle law relates the
  flag to the parity of rising edges.
- `AudioCore` (audio_core.dfy): `Audio`, covering the lifecycle flag, the
  live LED rule, the volume rescale, `sendData` and the two DMA callbacks.
  The two copy loops of `sendData` are also written as loops
  (`InterleaveLoop`, `LeftChannelLoop`) and proved equal to the functional
  definitions.
- `Program` (program.dfy): the whole device as one record, including the
  volume library's target level and both LEDs, plus one iteration of the
  foreground loop.
- `UsbAudioIf` (usbd_audio_if.dfy): the USB audio interface callbacks and
  the two I2S DMA completion callbacks. They act on an explicit `Device`
  value in place of the `Audio::_instance` global.

Status codes are integers, with `HAL_OK` and `USBD_OK` both 0. The
equaliser and volume stages are supplied by the caller as functions
`StereoBlock -> StereoBlock`. A `StereoBlock` is a 960-sample int16
sequence, so each stage keeps the block's length and sample width. The
libraries keep state between calls, which is modelled by passing a
different function on each call. `Error_Handler` appears as the `halted`
flag of a callback's result. It is terminal, and nothing after it is
modelled.

Where the code and its comments disagree, the model follows the code. A
few behaviours are also worth stating plainly:

- The narrowing at Core/Inc/Audio.h:196-197 is a plain C conversion. It
  keeps the low 16 bits of each 32-bit word, modulo 2^16. It does not take
  the most significant 16 bits, as the comment above the loop says. The
  comment is only right because of how the half-word DMA lays out the
  words.
- The button has a single 50 ms press threshold and no release debounce.
  The mute flag toggles on every rising edge of the debounced level.
- The volume rescale divides the host's 1/256 dB value by 128 and clamps
  the result to [-160, 72], so a host value of 0 maps to 0.

## Model

| member | source | states |
|---|---|---|
| Ints.Narrow16 | Core/Inc/Audio.h:196-197 | the int16 value congruent to the int32 word modulo 2^16 (two's complement low half-word) |
| Ints.Narrow16Identity | Core/Inc/Audio.h:196-197 | narrowing leaves a value that already fits in int16 unchanged |
| Ints.Narrow16IgnoresHighHalf | Core/Inc/Audio.h:196-197 | the narrowed value depends only on the low half-word: the high half-word is discarded |
| Ints.TruncDiv | Core/Inc/Audio.h:153 | C signed division by a positive divisor: the quotient is truncated toward zero (bounds of the quotient for each sign) |
| Ints.TruncDivMonotone | Core/Inc/Audio.h:153 | truncating division by a positive divisor is monotone non-decreasing |
| Ints.WrapSub32 | Core/Inc/Button.h:82 | `uint32_t` subtraction: the difference reduced modulo 2^32, equal to the plain difference when there is no wrap |
| Debounce.New | Core/Inc/Button.h:35-41 | a new button is Idle with `_lastTime == 0` and keeps its pressed-state polarity |
| Debounce.Active | Core/Inc/Button.h:55-59 | with `pressedState` set the reading is inverted (low pin = pressed), otherwise taken as is |
| Debounce.IsPressed | Core/Inc/Button.h:48-94 | released: false and back to Idle; press from Idle: false, DebounceDelay, `_lastTime := now`; press while delaying: true iff (now - lastTime) mod 2^32 >= 50, state kept; never true on a call starting in Idle |
| Debounce.AfterKeepsPressedState | Core/Inc/Button.h:39 | polling never changes the button's polarity |
| Debounce.DelayWitness | Core/Inc/Button.h:64-88 | from reset, a button in DebounceDelay has seen an unbroken pressed run up to now that begins at the first sample or right after a released one, and `_lastTime` is that first reading's tick; a button back in Idle after at least one poll has just seen a released reading |
| Debounce.PressNeedsHeldRun | Core/Inc/Button.h:64-93 | from reset, a true result needs an unbroken run of pressed readings, beginning at the first sample or right after a released one, that began at least 50 wrapped ticks before the call |
| Debounce.HeldKeepsState | Core/Inc/Button.h:81-88 | while held in DebounceDelay the state and `_lastTime` never change |
| Debounce.HeldOutputs | Core/Inc/Button.h:81-87 | while held, every call's result is `(tick - lastTime) mod 2^32 >= 50` against the same `_lastTime` |
| Debounce.PressLatches | Core/Inc/Button.h:81-87 | once true while held, every later held call is true as long as the elapsed time does not wrap |
| MuteToggle.New | Core/Inc/MuteButton.h:22-27 | a new mute button uses an inverted button (`pressedState == true`), is not pressed and not muted |
| MuteToggle.IsMuted | Core/Inc/MuteButton.h:44-46 | `isMuted()` reports exactly the stored mute flag |
| MuteToggle.Toggle | Core/Inc/MuteButton.h:34-41 | `_pressed` becomes the level; `_muted` flips exactly when the level is true and `_pressed` was false |
| MuteToggle.Run | Core/Inc/MuteButton.h:29-42 | `run()` polls the button and applies the edge detector to the level it reports |
| MuteToggle.ToggleLaw | Core/Inc/MuteButton.h:29-42 | from reset, muted iff the number of false→true rising edges of the level sequence is odd; `_pressed` is the last level |
| MuteToggle.HoldDoesNotToggle | Core/Inc/MuteButton.h:35-38 | while the level stays true after a toggle, the mute button does not change |
| MuteToggle.RunAllIsToggleAll | Core/Inc/MuteButton.h:29-42 | running the mute button over a trace is polling its button and toggling on the reported levels |
| MuteToggle.MutedIsRisingEdgeParity | Core/Inc/MuteButton.h:29-42 | from reset, over any pin/tick trace, muted iff the debounced level rose an odd number of times |
| AudioCore.New | Core/Inc/Audio.h:57-75 | construction: not running; buffers of 1920 int32, 960 int16 and 960 int16 |
| AudioCore.Start | Core/Inc/Audio.h:81-92 | starts DMA reception of 1920 words into the sample buffer, returns the HAL status, becomes running only on HAL_OK |
| AudioCore.Stop | Core/Inc/Audio.h:98-106 | calls DMA stop, returns the HAL status, stops running only on HAL_OK |
| AudioCore.Pause | Core/Inc/Audio.h:112-121 | calls DMA pause, returns the HAL status, stops running only on HAL_OK |
| AudioCore.Resume | Core/Inc/Audio.h:127-135 | calls DMA resume, returns the HAL status, becomes running only on HAL_OK |
| AudioCore.FailedControlChangesNothing | Core/Inc/Audio.h:81-135 | a non-OK HAL status leaves the pipeline state unchanged for all four operations |
| AudioCore.ControlRoundTrips | Core/Inc/Audio.h:81-135 | from stopped, a successful stop or pause undoes a successful start; resume after pause equals start |
| AudioCore.LiveLed | Core/Inc/Audio.h:141-143 | the live LED is on iff running and not muted |
| AudioCore.SetVolume | Core/Inc/Audio.h:149-164 | result in [-160, 72]; 72 from 9216 up, -160 from -20480 down, otherwise the host value divided by 128 truncated toward zero |
| AudioCore.SetVolumeMonotone | Core/Inc/Audio.h:149-164 | the rescale is monotone non-decreasing in the host volume |
| AudioCore.Interleave | Core/Inc/Audio.h:193-199 | frame i of the staging block has both channels equal to the narrowed left (even) word of captured frame i |
| AudioCore.InterleaveLoop | Core/Inc/Audio.h:195-199 | the first copy loop builds exactly the staged block |
| AudioCore.InterleaveReadsLeftWords | Core/Inc/Audio.h:195-198 | only the even-indexed capture words are read: windows that agree on them stage the same block |
| AudioCore.LeftChannelLoop | Core/Inc/Audio.h:209-215 | the second copy loop yields sample i = left sample of processed frame i, for 480 samples |
| AudioCore.SendData | Core/Inc/Audio.h:183-223 | muted or stopped: no call, no write, no halt; otherwise equaliser then volume (480 samples each) on the staged block, left channel written to the 480-sample output slice and transmitted with count 480, halted iff the transmit status is not USBD_OK (library errors are not modelled, see Left out); nothing outside the slice written |
| AudioCore.PassThrough | Core/Inc/Audio.h:193-215 | with identity stages, transmitted sample i is the narrowed capture word 2i, and an int16-sized word comes back unchanged |
| AudioCore.HalfComplete | Core/Inc/Audio.h:230-232 | the half callback writes send[0..480) from sample[0..960) and leaves send[480..960) unchanged |
| AudioCore.Complete | Core/Inc/Audio.h:239-241 | the full callback writes send[480..960) from sample[960..1920) and leaves send[0..480) unchanged |
| AudioCore.HalfCompleteReadsFirstHalf | Core/Inc/Audio.h:230-232 | the half callback's outcome depends on no capture word from 960 on |
| AudioCore.CompleteReadsSecondHalf | Core/Inc/Audio.h:239-241 | the full callback's outcome depends on no capture word below 960 |
| AudioCore.CallbacksWriteDisjointHalves | Core/Inc/Audio.h:230-241 | the two callbacks' output regions are disjoint, so either order leaves the same send buffer |
| Program.New | Core/Inc/Program.h:28-31 | the constructed device is unmuted, not running, both LEDs off, volume target 1 |
| Program.ForegroundStep | Core/Inc/Program.h:41-42 | one loop iteration runs the mute button, then sets the live LED to running and not muted, changing nothing else |
| Program.LiveLedShowsStreaming | Core/Inc/Audio.h:141-143 | after a loop iteration, the live LED is on iff the next DMA callback would process and transmit a block |
| UsbAudioIf.AudioInit | USB_DEVICE/App/usbd_audio_if.cpp:24-27 | returns USBD_OK and turns the link LED on; nothing else changes |
| UsbAudioIf.AudioDeInit | USB_DEVICE/App/usbd_audio_if.cpp:35-37 | returns USBD_OK with no state change |
| UsbAudioIf.AudioRecord | USB_DEVICE/App/usbd_audio_if.cpp:44-46 | returns exactly `start()`'s status and applies its state change |
| UsbAudioIf.AudioVolumeCtl | USB_DEVICE/App/usbd_audio_if.cpp:54-57 | returns USBD_OK and sets the volume target to `setVolume(vol)`, within [-160, 72] |
| UsbAudioIf.AudioMuteCtl | USB_DEVICE/App/usbd_audio_if.cpp:65-67 | returns USBD_OK; the host mute command changes neither mute nor running state |
| UsbAudioIf.AudioStop | USB_DEVICE/App/usbd_audio_if.cpp:75-77 | returns exactly `stop()`'s status and applies its state change |
| UsbAudioIf.AudioPause | USB_DEVICE/App/usbd_audio_if.cpp:85-87 | returns exactly `pause()`'s status and applies its state change |
| UsbAudioIf.AudioResume | USB_DEVICE/App/usbd_audio_if.cpp:95-97 | returns exactly `resume()`'s status and applies its state change |
| UsbAudioIf.AudioCommandMgr | USB_DEVICE/App/usbd_audio_if.cpp:105-107 | returns USBD_OK with no state change |
| UsbAudioIf.RxHalfCpltCallback | USB_DEVICE/App/usbd_audio_if.cpp:115-117 | the half-complete interrupt runs only `i2s_halfComplete` with the mute button's flag |
| UsbAudioIf.RxCpltCallback | USB_DEVICE/App/usbd_audio_if.cpp:119-121 | the complete interrupt runs only `i2s_complete` with the mute button's flag |
| UsbAudioIf.InterruptsTouchOnlyBuffers | USB_DEVICE/App/usbd_audio_if.cpp:115-121 | DMA interrupts change only the pipeline's buffers; when muted or stopped they change nothing, make no call and cannot halt |
| UsbAudioIf.HostCommandsPreserveValid | USB_DEVICE/App/usbd_audio_if.cpp:24-107 | every host command keeps buffer sizes and the volume range; all but Record/Stop/Pause/Resume return USBD_OK |

## Left out

- Peripheral bring-up (clocks, GPIO, DMA, I2S, USB device, interrupt vectors in Core/Src/main.c, Core/Src/stm32f4xx_hal_msp.c, Core/Src/stm32f4xx_it.c, USB_DEVICE/App/usb_device.c): hardware configuration with no logic to model.
- `Error_Handler`'s LED blink loop: modelled only as the terminal `halted` outcome of a DMA callback.
- The ST GREQ and SVC libraries behind Core/Inc/GraphicEqualizer.h and Core/Inc/VolumeControl.h: closed source. Their `process` calls are opaque functions on a 960-sample stereo block. `VolumeControl::setVolume` is modelled as recording its target, and its own mute flag and equaliser band settings are not modelled.
- The DMA hardware writing the capture buffer: the sample buffer's contents are part of the state handed to the callbacks.
- Buffer contents at construction: `new` leaves them indeterminate in the source; the model starts them at zero.
- GPIO pins and LEDs (Core/Inc/GpioPin.h, Core/Inc/Led.h, Core/Inc/LiveLed.h): a pin read is a boolean input and an LED is a boolean field.
- The `for(;;)` loop of Core/Inc/Program.h: only one iteration is modelled.
- Concurrency and timing: the interleaving of DMA interrupts with the foreground loop and USB control requests, and the 10 ms processing deadline. Every call is treated as sequential and atomic.
- `HAL_GetTick`, and the values of the HAL and USB status enums other than OK: these are inputs.
- `Audio::getGraphicEqualizer` and the `LR` pin write in the constructor: they only expose a reference or drive a constant pin level.
- Debounce.PressLatches: assumes the elapsed time from `_lastTime` does not wrap during the held run. After 2^32 ms of continuous holding the source's wrapped difference falls below 50 again, and the latch does not hold.
- AudioCore.SendData: `halted` reflects only the status of `USBD_AUDIO_Data_Transfer`. The equaliser and volume stages also enter `Error_Handler` when `greq_process` or `svc_process` report an error (Core/Inc/GraphicEqualizer.h:126-128, Core/Inc/VolumeControl.h:138-140). The stages are modelled as total transforms of a closed-source library, so those two error paths are not modelled, and neither is anything in `HalfComplete`, `Complete` or the DMA callbacks that follows from them.
- UsbAudioIf.AudioVolumeCtl: always returns USBD_OK and never halts. `VolumeControl::setVolume` enters `Error_Handler` when `svc_setConfig` reports an error (Core/Inc/VolumeControl.h:95-97), and that library error path is not modelled.
- UsbAudioIf.HostCommandsPreserveValid: its USBD_OK clause for the volume command inherits the gap above, because `svc_setConfig` errors are not modelled.
