/** The capture pipeline of Core/Inc/Audio.h: the I2S DMA lifecycle flag, the
    live LED rule, the host volume rescale, and the per-half-block processing
    that narrows, duplicates, conditions and transmits captured samples.

    Hardware and library calls are inputs: each HAL or USB call contributes
    the status it returned, and the equaliser (ST GREQ) and volume (ST SVC)
    stages are caller-supplied transforms of an interleaved stereo block. */
module AudioCore {
  import opened Ints

  /** Samples of one 20 ms USB packet at 48 kHz. */
  const MicSamplesPerPacket: int := 960

  /** The DMA capture buffer holds 64-bit L/R frames as 32-bit words. */
  const SampleBufferLength: int := MicSamplesPerPacket * 2
  /** The interleaved stereo staging buffer. */
  const ProcessBufferLength: int := MicSamplesPerPacket
  /** The mono transmit buffer, one half per DMA callback. */
  const SendBufferLength: int := MicSamplesPerPacket
  /** Samples per channel in one half-block (10 ms). */
  const SamplesPerChannel: int := MicSamplesPerPacket / 2

  const HalOk: int := 0
  const UsbdOk: int := 0

  /** Target-volume limits of the SVC library, in 0.5 dB steps. */
  const VolumeMin: int := -160
  const VolumeMax: int := 72
  /** Host volume is in 1/256 dB; the SVC library takes 1/2 dB. */
  const VolumeDivisor: int := 128

  predicate IsStereoBlock(s: seq<int>) {
    |s| == ProcessBufferLength && AllInt16(s)
  }

  /** The contents of the staging buffer: 480 interleaved L/R int16 pairs. */
  type StereoBlock = s: seq<int> | IsStereoBlock(s) witness seq(960, k => 0)

  /** An in-place library stage (`GraphicEqualizer::process`,
      `VolumeControl::process`) seen from outside: it rewrites the staging
      buffer and keeps its length and sample width. */
  type Transform = StereoBlock -> StereoBlock

  /** The left sample of frame `i` of an interleaved buffer. */
  function Left(s: seq<int>, i: int): int
    requires 0 <= 2 * i < |s|
  {
    s[2 * i]
  }

  /** The right sample of frame `i` of an interleaved buffer. */
  function Right(s: seq<int>, i: int): int
    requires 0 <= 2 * i + 1 < |s|
  {
    s[2 * i + 1]
  }

  datatype Audio = Audio(running: bool, sampleBuffer: seq<int>, processBuffer: seq<int>, sendBuffer: seq<int>)

  /** The buffer sizes and element widths fixed at construction. */
  predicate Valid(a: Audio) {
    && |a.sampleBuffer| == SampleBufferLength && AllInt32(a.sampleBuffer)
    && IsStereoBlock(a.processBuffer)
    && |a.sendBuffer| == SendBufferLength && AllInt16(a.sendBuffer)
  }

  /** The constructed pipeline: not running, with buffers of 1920 int32, 960
      int16 and 960 int16 elements. */
  function New(): (a: Audio)
    ensures Valid(a) && !a.running
    ensures |a.sampleBuffer| == 1920 && |a.processBuffer| == 960 && |a.sendBuffer| == 960
  {
    Audio(false, seq(SampleBufferLength, k => 0), seq(ProcessBufferLength, k => 0), seq(SendBufferLength, k => 0))
  }

  /** The I2S DMA control call a lifecycle operation makes. */
  datatype HalCall =
    | ReceiveDma(buffer: seq<int>, size: int)
    | DmaStop
    | DmaPause
    | DmaResume

  /** A lifecycle operation's outcome: the new state, the HAL call made and
      the status handed back to the caller. */
  datatype Control = Control(audio: Audio, call: HalCall, status: int)

  /** `Audio::start()`: start circular DMA reception into the sample buffer;
      running only if the HAL accepted. */
  function Start(a: Audio, halStatus: int): (r: Control)
    ensures r.call == ReceiveDma(a.sampleBuffer, MicSamplesPerPacket * 2)
    ensures r.status == halStatus
    ensures r.audio.running <==> (halStatus == HalOk || a.running)
    ensures r.audio == a.(running := r.audio.running)
  {
    var running := if halStatus == HalOk then true else a.running;
    Control(a.(running := running), ReceiveDma(a.sampleBuffer, MicSamplesPerPacket * 2), halStatus)
  }

  /** `Audio::stop()`: stop the DMA; not running only if the HAL accepted. */
  function Stop(a: Audio, halStatus: int): (r: Control)
    ensures r.call == DmaStop
    ensures r.status == halStatus
    ensures r.audio.running <==> (halStatus != HalOk && a.running)
    ensures r.audio == a.(running := r.audio.running)
  {
    var running := if halStatus == HalOk then false else a.running;
    Control(a.(running := running), DmaStop, halStatus)
  }

  /** `Audio::pause()`: pause the DMA; not running only if the HAL accepted. */
  function Pause(a: Audio, halStatus: int): (r: Control)
    ensures r.call == DmaPause
    ensures r.status == halStatus
    ensures r.audio.running <==> (halStatus != HalOk && a.running)
    ensures r.audio == a.(running := r.audio.running)
  {
    var running := if halStatus == HalOk then false else a.running;
    Control(a.(running := running), DmaPause, halStatus)
  }

  /** `Audio::resume()`: resume the DMA; running only if the HAL accepted. */
  function Resume(a: Audio, halStatus: int): (r: Control)
    ensures r.call == DmaResume
    ensures r.status == halStatus
    ensures r.audio.running <==> (halStatus == HalOk || a.running)
    ensures r.audio == a.(running := r.audio.running)
  {
    var running := if halStatus == HalOk then true else a.running;
    Control(a.(running := running), DmaResume, halStatus)
  }

  /** A failed HAL call leaves the pipeline exactly as it was, and every
      lifecycle operation keeps the buffers intact. */
  lemma FailedControlChangesNothing(a: Audio, halStatus: int)
    requires halStatus != HalOk
    ensures Start(a, halStatus).audio == a && Stop(a, halStatus).audio == a
    ensures Pause(a, halStatus).audio == a && Resume(a, halStatus).audio == a
  {
  }

  /** From a stopped pipeline, a successful stop or pause undoes a
      successful start, and a successful resume after a pause is a start. */
  lemma ControlRoundTrips(a: Audio)
    requires !a.running
    ensures Stop(Start(a, HalOk).audio, HalOk).audio == a
    ensures Pause(Start(a, HalOk).audio, HalOk).audio == a
    ensures Resume(Pause(a, HalOk).audio, HalOk).audio == Start(a, HalOk).audio
  {
  }

  /** `Audio::setLed()`: the live LED level. */
  function LiveLed(a: Audio, muted: bool): (on: bool)
    ensures on ==> a.running
    ensures on ==> !muted
    ensures a.running && !muted ==> on
  {
    a.running && !muted
  }

  /** `Audio::setVolume()`: rescale a host volume in 1/256 dB to the SVC
      library's 1/2 dB steps with C's truncating division, then clamp to the
      library's limits. */
  function SetVolume(volume: int): (target: int)
    requires IsInt16(volume)
    ensures VolumeMin <= target <= VolumeMax
    ensures volume >= VolumeMax * VolumeDivisor ==> target == VolumeMax
    ensures volume <= VolumeMin * VolumeDivisor ==> target == VolumeMin
    ensures VolumeMin * VolumeDivisor < volume < VolumeMax * VolumeDivisor ==>
              (volume >= 0 ==> VolumeDivisor * target <= volume < VolumeDivisor * (target + 1)) &&
              (volume < 0 ==> VolumeDivisor * (target - 1) < volume <= VolumeDivisor * target)
  {
    var v := TruncDiv(volume, VolumeDivisor);
    if v < VolumeMin then VolumeMin
    else if v > VolumeMax then VolumeMax
    else v
  }

  /** The rescale never decreases as the host volume increases. */
  lemma SetVolumeMonotone(v1: int, v2: int)
    requires IsInt16(v1) && IsInt16(v2)
    requires v1 <= v2
    ensures SetVolume(v1) <= SetVolume(v2)
  {
    TruncDivMonotone(v1, v2, VolumeDivisor);
  }

  /** Step 1 of `sendData`: narrow the left word of every captured 64-bit
      frame to int16 and write it to both channels of the staging block. */
  function Interleave(words: seq<int>): (p: StereoBlock)
    requires |words| == MicSamplesPerPacket && AllInt32(words)
    ensures forall i :: 0 <= i < SamplesPerChannel ==>
              Left(p, i) == Narrow16(Left(words, i)) && Right(p, i) == Left(p, i)
  {
    var p := seq(ProcessBufferLength, k requires 0 <= k < ProcessBufferLength => Narrow16(words[k / 2 * 2]));
    assert forall i :: 0 <= i < SamplesPerChannel ==> (2 * i + 1) / 2 * 2 == 2 * i && (2 * i) / 2 * 2 == 2 * i;
    p
  }

  /** Step 3 of `sendData`: the left channel of the processed block. */
  function LeftChannel(p: seq<int>): seq<int>
    requires |p| == ProcessBufferLength
  {
    seq(SamplesPerChannel, i requires 0 <= i < SamplesPerChannel => p[2 * i])
  }

  /** The first copy loop of `sendData`, written as in the source: one frame
      per iteration, left word narrowed and stored twice. */
  method InterleaveLoop(words: seq<int>) returns (p: seq<int>)
    requires |words| == MicSamplesPerPacket && AllInt32(words)
    ensures p == Interleave(words)
  {
    p := [];
    var i := 0;
    while i < SamplesPerChannel
      invariant 0 <= i <= SamplesPerChannel
      invariant |p| == 2 * i
      invariant forall k :: 0 <= k < |p| ==> p[k] == Narrow16(words[k / 2 * 2])
    {
      var sample := Narrow16(words[2 * i]);
      p := p + [sample, sample];
      i := i + 1;
    }
  }

  /** The second copy loop of `sendData`: every other processed sample. */
  method LeftChannelLoop(p: seq<int>) returns (out: seq<int>)
    requires |p| == ProcessBufferLength
    ensures out == LeftChannel(p)
    ensures forall i :: 0 <= i < SamplesPerChannel ==> out[i] == Left(p, i)
  {
    out := [];
    var i := 0;
    while i < SamplesPerChannel
      invariant 0 <= i <= SamplesPerChannel
      invariant |out| == i
      invariant forall j :: 0 <= j < i ==> out[j] == p[2 * j]
    {
      out := out + [p[2 * i]];
      i := i + 1;
    }
  }

  /** A call into a collaborator made while processing a block. */
  datatype Call =
    | EqualiserProcess(samplesPerChannel: int)
    | VolumeProcess(samplesPerChannel: int)
    | DataTransfer(block: seq<int>, count: int)

  /** A processed block's outcome: the new state, the collaborator calls in
      the order they were made, and whether `Error_Handler` was entered. */
  datatype Block = Block(audio: Audio, calls: seq<Call>, halted: bool)

  /** Whether `sendData` does any work: only when not muted and running. */
  predicate Streaming(a: Audio, muted: bool) {
    !muted && a.running
  }

  /** `Audio::sendData(data_in, data_out)`, where `data_in` points at word
      `inOffset` of the sample buffer and `data_out` at sample `outOffset` of
      the send buffer. `txStatus` is what `USBD_AUDIO_Data_Transfer`
      returns; a failure enters the fatal handler. */
  function SendData(a: Audio, muted: bool, inOffset: nat, outOffset: nat,
                    equaliser: Transform, volume: Transform, txStatus: int): (r: Block)
    requires Valid(a)
    requires inOffset + MicSamplesPerPacket <= SampleBufferLength
    requires outOffset + SamplesPerChannel <= SendBufferLength
    ensures Valid(r.audio)
    ensures r.audio.running == a.running && r.audio.sampleBuffer == a.sampleBuffer
    // the gate: muted or stopped means no transform, no write, no transmit
    ensures !Streaming(a, muted) ==> r.audio == a && r.calls == [] && !r.halted
    // equaliser first, then volume, on the narrowed stereo block
    ensures Streaming(a, muted) ==>
              r.audio.processBuffer == volume(equaliser(Interleave(a.sampleBuffer[inOffset..inOffset + MicSamplesPerPacket])))
    // the left channel lands in the output slice, which is transmitted
    ensures Streaming(a, muted) ==>
              (forall i :: 0 <= i < SamplesPerChannel ==>
                 r.audio.sendBuffer[outOffset + i] == Left(r.audio.processBuffer, i)) &&
              r.calls == [EqualiserProcess(SamplesPerChannel), VolumeProcess(SamplesPerChannel),
                          DataTransfer(r.audio.sendBuffer[outOffset..outOffset + SamplesPerChannel], SamplesPerChannel)] &&
              (r.halted <==> txStatus != UsbdOk)
    // nothing outside the output slice is written
    ensures forall k :: 0 <= k < SendBufferLength && !(outOffset <= k < outOffset + SamplesPerChannel) ==>
              r.audio.sendBuffer[k] == a.sendBuffer[k]
  {
    if !Streaming(a, muted) then
      Block(a, [], false)
    else
      var staged := Interleave(a.sampleBuffer[inOffset..inOffset + MicSamplesPerPacket]);
      var processed := volume(equaliser(staged));
      var out := LeftChannel(processed);
      var sendBuffer := a.sendBuffer[..outOffset] + out + a.sendBuffer[outOffset + SamplesPerChannel..];
      assert sendBuffer[outOffset..outOffset + SamplesPerChannel] == out;
      assert forall i :: 0 <= i < SamplesPerChannel ==> sendBuffer[outOffset + i] == out[i];
      var calls := [EqualiserProcess(SamplesPerChannel), VolumeProcess(SamplesPerChannel),
                    DataTransfer(out, SamplesPerChannel)];
      Block(a.(processBuffer := processed, sendBuffer := sendBuffer), calls, txStatus != UsbdOk)
  }

  /** The identity stage: an equaliser with every band at 0 dB and a volume
      stage at unity gain, ignoring the libraries' latency and rounding. */
  function Identity(s: StereoBlock): StereoBlock {
    s
  }

  /** With pass-through stages the transmitted sample `i` is the narrowed
      left word of captured frame `i`, and a word that already fits in 16
      bits comes back unchanged. */
  lemma PassThrough(a: Audio, muted: bool, inOffset: nat, outOffset: nat, txStatus: int)
    requires Valid(a) && Streaming(a, muted)
    requires inOffset + MicSamplesPerPacket <= SampleBufferLength
    requires outOffset + SamplesPerChannel <= SendBufferLength
    ensures var r := SendData(a, muted, inOffset, outOffset, Identity, Identity, txStatus);
            forall i :: 0 <= i < SamplesPerChannel ==>
              r.audio.sendBuffer[outOffset + i] == Narrow16(a.sampleBuffer[inOffset + 2 * i]) &&
              (IsInt16(a.sampleBuffer[inOffset + 2 * i]) ==> r.audio.sendBuffer[outOffset + i] == a.sampleBuffer[inOffset + 2 * i])
  {
    var words := a.sampleBuffer[inOffset..inOffset + MicSamplesPerPacket];
    var r := SendData(a, muted, inOffset, outOffset, Identity, Identity, txStatus);
    forall i | 0 <= i < SamplesPerChannel
      ensures r.audio.sendBuffer[outOffset + i] == Narrow16(a.sampleBuffer[inOffset + 2 * i])
      ensures IsInt16(a.sampleBuffer[inOffset + 2 * i]) ==> r.audio.sendBuffer[outOffset + i] == a.sampleBuffer[inOffset + 2 * i]
    {
      assert Left(words, i) == a.sampleBuffer[inOffset + 2 * i];
      if IsInt16(a.sampleBuffer[inOffset + 2 * i]) {
        Narrow16Identity(a.sampleBuffer[inOffset + 2 * i]);
      }
    }
  }

  /** The staging step reads only the even (left) words of the capture
      window: windows that agree there stage the same block. */
  lemma InterleaveReadsLeftWords(w1: seq<int>, w2: seq<int>)
    requires |w1| == MicSamplesPerPacket && AllInt32(w1)
    requires |w2| == MicSamplesPerPacket && AllInt32(w2)
    requires forall i :: 0 <= i < SamplesPerChannel ==> Left(w1, i) == Left(w2, i)
    ensures Interleave(w1) == Interleave(w2)
  {
    var p1, p2 := Interleave(w1), Interleave(w2);
    forall k | 0 <= k < ProcessBufferLength
      ensures p1[k] == p2[k]
    {
      var i := k / 2;
      if k % 2 == 0 {
        assert p1[k] == Left(p1, i);
      } else {
        assert p1[k] == Right(p1, i) && p2[k] == Right(p2, i);
      }
    }
  }

  /** `Audio::i2s_halfComplete()`: process the first half of the capture
      buffer into the first half of the send buffer. */
  function HalfComplete(a: Audio, muted: bool, equaliser: Transform, volume: Transform, txStatus: int): (r: Block)
    requires Valid(a)
    ensures Valid(r.audio)
    ensures r.audio.sendBuffer[SamplesPerChannel..] == a.sendBuffer[SamplesPerChannel..]
    ensures Streaming(a, muted) ==>
              r.audio.sendBuffer[..SamplesPerChannel] ==
              LeftChannel(volume(equaliser(Interleave(a.sampleBuffer[..MicSamplesPerPacket]))))
    ensures !Streaming(a, muted) ==> r.audio == a && r.calls == []
  {
    var r := SendData(a, muted, 0, 0, equaliser, volume, txStatus);
    assert r.audio.sendBuffer[SamplesPerChannel..] == a.sendBuffer[SamplesPerChannel..];
    r
  }

  /** `Audio::i2s_complete()`: process the second half of the capture buffer
      into the second half of the send buffer. */
  function Complete(a: Audio, muted: bool, equaliser: Transform, volume: Transform, txStatus: int): (r: Block)
    requires Valid(a)
    ensures Valid(r.audio)
    ensures r.audio.sendBuffer[..SamplesPerChannel] == a.sendBuffer[..SamplesPerChannel]
    ensures Streaming(a, muted) ==>
              r.audio.sendBuffer[SamplesPerChannel..] ==
              LeftChannel(volume(equaliser(Interleave(a.sampleBuffer[MicSamplesPerPacket..]))))
    ensures !Streaming(a, muted) ==> r.audio == a && r.calls == []
  {
    var r := SendData(a, muted, MicSamplesPerPacket, SamplesPerChannel, equaliser, volume, txStatus);
    assert r.audio.sendBuffer[..SamplesPerChannel] == a.sendBuffer[..SamplesPerChannel];
    assert a.sampleBuffer[MicSamplesPerPacket..MicSamplesPerPacket + MicSamplesPerPacket] == a.sampleBuffer[MicSamplesPerPacket..];
    r
  }

  /** The half callback reads only the first half of the capture buffer:
      states that differ elsewhere in it produce the same block. */
  lemma HalfCompleteReadsFirstHalf(a1: Audio, a2: Audio, muted: bool, equaliser: Transform, volume: Transform, txStatus: int)
    requires Valid(a1) && Valid(a2)
    requires a2 == a1.(sampleBuffer := a2.sampleBuffer)
    requires a1.sampleBuffer[..MicSamplesPerPacket] == a2.sampleBuffer[..MicSamplesPerPacket]
    ensures var r1, r2 := HalfComplete(a1, muted, equaliser, volume, txStatus), HalfComplete(a2, muted, equaliser, volume, txStatus);
            r1.calls == r2.calls && r1.halted == r2.halted && r2.audio == r1.audio.(sampleBuffer := a2.sampleBuffer)
  {
    assert a1.sampleBuffer[0..MicSamplesPerPacket] == a2.sampleBuffer[0..MicSamplesPerPacket];
  }

  /** The full callback reads only the second half of the capture buffer. */
  lemma CompleteReadsSecondHalf(a1: Audio, a2: Audio, muted: bool, equaliser: Transform, volume: Transform, txStatus: int)
    requires Valid(a1) && Valid(a2)
    requires a2 == a1.(sampleBuffer := a2.sampleBuffer)
    requires a1.sampleBuffer[MicSamplesPerPacket..] == a2.sampleBuffer[MicSamplesPerPacket..]
    ensures var r1, r2 := Complete(a1, muted, equaliser, volume, txStatus), Complete(a2, muted, equaliser, volume, txStatus);
            r1.calls == r2.calls && r1.halted == r2.halted && r2.audio == r1.audio.(sampleBuffer := a2.sampleBuffer)
  {
    assert a1.sampleBuffer[MicSamplesPerPacket..SampleBufferLength] == a2.sampleBuffer[MicSamplesPerPacket..SampleBufferLength];
  }

  /** The two callbacks write disjoint halves of the send buffer, so running
      them in either order leaves the same send buffer. */
  lemma CallbacksWriteDisjointHalves(a: Audio, muted: bool, equaliser: Transform, volume: Transform, tx1: int, tx2: int)
    requires Valid(a)
    ensures var h := HalfComplete(a, muted, equaliser, volume, tx1).audio;
            var f := Complete(a, muted, equaliser, volume, tx2).audio;
            Complete(h, muted, equaliser, volume, tx2).audio.sendBuffer ==
            HalfComplete(f, muted, equaliser, volume, tx1).audio.sendBuffer
  {
    var h := HalfComplete(a, muted, equaliser, volume, tx1).audio;
    var f := Complete(a, muted, equaliser, volume, tx2).audio;
    var hf := Complete(h, muted, equaliser, volume, tx2).audio.sendBuffer;
    var fh := HalfComplete(f, muted, equaliser, volume, tx1).audio.sendBuffer;
    assert h.sampleBuffer == f.sampleBuffer == a.sampleBuffer;
    assert hf[..SamplesPerChannel] == fh[..SamplesPerChannel];
    assert hf[SamplesPerChannel..] == fh[SamplesPerChannel..];
    assert hf == hf[..SamplesPerChannel] + hf[SamplesPerChannel..];
    assert fh == fh[..SamplesPerChannel] + fh[SamplesPerChannel..];
  }
}
