/** The LogicAnalyzer object: the engine state as fields updated in place and
    the ring buffer it owns. Every method is proved against the value-level
    engine of CaptureSpec and DispatchSpec through `Snapshot()`.

    The command stream and the pin reader are not objects here: what the
    methods write to the stream is the ghost `output`, what the event handler
    is told is the ghost `events`, and the samples the pin reader would return
    are passed in as a sequence. */
module Analyzer {
  import opened SumpProtocol
  import opened Bitwise
  import CaptureSpec
  import DispatchSpec
  import Frequency
  import RingSpec
  import opened RingBuffers

  class LogicAnalyzer {
    /** What begin() fixes. */
    const setup: CaptureSpec.Setup
    const buffer: RingBuffer

    var status: CaptureSpec.Status
    var continuous: bool
    var readCount: nat
    var delayCount: nat
    var frequency: nat
    var delayTimeUs: nat
    var resetTimeout: nat
    var triggerMask: Sample
    var triggerValues: Sample

    /** The events raised so far. */
    ghost var events: seq<CaptureSpec.Event>
    /** Everything written to the command stream so far. */
    ghost var output: seq<CaptureSpec.Emitted>

    ghost predicate Valid()
      reads this, buffer, buffer.data
    {
      setup.Valid() && buffer.Valid() && buffer.sizeCount == setup.maxCaptureSize
    }

    /** The object as an engine value. */
    ghost function Snapshot(): CaptureSpec.Engine
      reads this, buffer
    {
      CaptureSpec.Engine(status, continuous, readCount, delayCount, frequency, delayTimeUs,
                         resetTimeout, triggerMask, triggerValues, buffer.State(), events, output)
    }

    /** begin(): allocate the buffer for `maxCaptureSize` samples, read and
        delay the whole buffer, and report the status STOPPED. */
    constructor (su: CaptureSpec.Setup)
      requires su.Valid()
      ensures Valid() && setup == su && fresh(buffer) && fresh(buffer.data)
      ensures Snapshot() == DispatchSpec.Begin(su)
    {
      setup := su;
      buffer := new RingBuffer(su.maxCaptureSize);
      readCount := su.maxCaptureSize;
      delayCount := su.maxCaptureSize;
      continuous := false;
      frequency, delayTimeUs, resetTimeout := 0, 0, 0;
      triggerMask, triggerValues := 0, 0;
      status := CaptureSpec.Stopped;
      events := [];
      output := [];
      new;
      SetStatus(CaptureSpec.Stopped);
    }

    /** setStatus */
    method SetStatus(s: CaptureSpec.Status)
      modifies this
      ensures Snapshot() == CaptureSpec.SetStatus(old(Snapshot()), s)
    {
      status := s;
      events := events + [CaptureSpec.StatusEvent];
    }

    /** setTriggerValues */
    method SetTriggerValues(values: Sample)
      modifies this
      ensures Snapshot() == old(Snapshot()).(triggerValues := values,
                                             events := old(events) + [CaptureSpec.TriggerValuesEvent])
    {
      triggerValues := values;
      events := events + [CaptureSpec.TriggerValuesEvent];
    }

    /** setTriggerMask */
    method SetTriggerMask(mask: Sample)
      modifies this
      ensures Snapshot() == old(Snapshot()).(triggerMask := mask,
                                             events := old(events) + [CaptureSpec.TriggerMaskEvent])
    {
      triggerMask := mask;
      events := events + [CaptureSpec.TriggerMaskEvent];
    }

    /** setReadCount */
    method SetReadCount(count: nat)
      modifies this
      ensures Snapshot() == old(Snapshot()).(readCount := count)
    {
      readCount := count;
    }

    /** setDelayCount */
    method SetDelayCount(count: nat)
      modifies this
      ensures Snapshot() == old(Snapshot()).(delayCount := count)
    {
      delayCount := count;
    }

    /** setContinuousCapture */
    method SetContinuousCapture(cont: bool)
      modifies this
      ensures Snapshot() == old(Snapshot()).(continuous := cont)
    {
      continuous := cont;
    }

    /** setCaptureFrequency */
    method SetCaptureFrequency(value: nat)
      requires value > 0
      modifies this
      ensures Snapshot() == DispatchSpec.SetCaptureFrequency(old(Snapshot()), value)
    {
      frequency := value;
      delayTimeUs := if value <= Frequency.MicrosPerSecond then Frequency.MicrosPerSecond / value - 1 else 0;
      events := events + [CaptureSpec.CaptureFrequencyEvent];
    }

    /** reset(): stop, zero the buffer memory, empty the buffer and report
        RESET. */
    method Reset()
      requires Valid()
      modifies this, buffer, buffer.data
      ensures Valid()
      ensures Snapshot() == old(Snapshot()).(status := CaptureSpec.Stopped, ring := RingSpec.Empty,
                                             events := old(events) + [CaptureSpec.StatusEvent, CaptureSpec.ResetEvent])
      ensures forall i | 0 <= i < setup.maxCaptureSize :: buffer.data[i] == 0
    {
      SetStatus(CaptureSpec.Stopped);
      var i := 0;
      while i < setup.maxCaptureSize
        modifies buffer.data
        invariant i <= setup.maxCaptureSize
        invariant forall j | 0 <= j < i :: buffer.data[j] == 0
      {
        buffer.data[i] := 0;
        i := i + 1;
      }
      buffer.Clear();
      events := events + [CaptureSpec.ResetEvent];
    }

    /** captureSample(): read the pins once; stream the sample in continuous
        mode, buffer it while triggered. */
    method CaptureSample(s: Sample) returns (actual: Sample)
      requires Valid()
      modifies this, buffer, buffer.data
      ensures Valid() && actual == s
      ensures Snapshot() == CaptureSpec.Observe(old(Snapshot()), setup.maxCaptureSize, [s])
    {
      actual := s;
      CaptureSpec.ObserveOne(Snapshot(), setup.maxCaptureSize, s);
      if continuous {
        output := output + [CaptureSpec.Streamed(actual)];
      } else if status == CaptureSpec.Triggered {
        buffer.Write(actual);
      }
    }

    /** The trigger wait of capture(): with a trigger mask, take samples
        until one satisfies the trigger. Returns how many were taken and
        whether the trigger fired before the input ended. */
    method AwaitTrigger(pins: seq<Sample>) returns (k: nat, hit: bool)
      requires Valid()
      modifies this, buffer, buffer.data
      ensures Valid() && k <= |pins|
      ensures hit ==> CaptureSpec.AfterTrigger(old(Snapshot()), pins) == Some(k)
      ensures !hit ==> CaptureSpec.AfterTrigger(old(Snapshot()), pins).None? && k == |pins|
      ensures Snapshot() == CaptureSpec.Observe(old(Snapshot()), setup.maxCaptureSize, pins[..k])
    {
      ghost var e0 := Snapshot();
      var cap := setup.maxCaptureSize;
      k := 0;
      CaptureSpec.ObserveNothing(e0, cap);
      if triggerMask == 0 {
        return 0, true;
      }
      hit := false;
      while k < |pins| && !hit
        invariant Valid() && k <= |pins|
        invariant Snapshot() == CaptureSpec.Observe(e0, cap, pins[..k])
        invariant hit ==> 0 < k && CaptureSpec.Satisfied(triggerValues, triggerMask, pins[k - 1])
        invariant forall j | 0 <= j < (if hit then k - 1 else k) ::
                    !CaptureSpec.Satisfied(triggerValues, triggerMask, pins[j])
      {
        var actual := CaptureSample(pins[k]);
        CaptureSpec.ObserveSnoc(e0, cap, pins[..k], pins[k]);
        assert pins[..k] + [pins[k]] == pins[..k + 1];
        hit := And(Xor(triggerValues, actual), triggerMask) == 0;
        k := k + 1;
      }
      CaptureSpec.TriggerIndexIsFirst(e0.triggerValues, e0.triggerMask, pins);
      if !hit {
        assert pins[..k] == pins;
      }
    }

    /** The retention split of capture(), on keep = readCount - delayCount. */
    method KeepWindow()
      requires Valid()
      modifies buffer
      ensures Valid()
      ensures buffer.State() == CaptureSpec.Retain(old(buffer.State()), readCount, delayCount)
    {
      var keep: int := readCount - delayCount;
      if keep > 0 && buffer.availableCount > keep {
        buffer.ClearN(buffer.availableCount - keep);
      } else if keep < 0 {
        buffer.ClearN(buffer.availableCount + (-keep));
      } else if keep == 0 {
        buffer.Clear();
      }
    }

    /** captureAll(): while triggered, buffer samples until `readCount` are
        held. Returns how many samples were read. */
    method CaptureAll(pins: seq<Sample>) returns (used: nat)
      requires Valid()
      modifies buffer, buffer.data
      ensures Valid()
      ensures status == CaptureSpec.Triggered ==>
                (buffer.State(), used) == CaptureSpec.Fill(old(buffer.State()), setup.maxCaptureSize, readCount, pins)
      ensures status != CaptureSpec.Triggered ==> used == 0 && buffer.State() == old(buffer.State())
    {
      ghost var cap := setup.maxCaptureSize;
      used := 0;
      while status == CaptureSpec.Triggered && buffer.availableCount < readCount && used < |pins|
        invariant Valid() && used <= |pins|
        invariant status == CaptureSpec.Triggered ==>
                    var rest := CaptureSpec.Fill(buffer.State(), cap, readCount, pins[used..]);
                    CaptureSpec.Fill(old(buffer.State()), cap, readCount, pins) == (rest.0, rest.1 + used)
        invariant status != CaptureSpec.Triggered ==> used == 0 && buffer.State() == old(buffer.State())
        decreases |pins| - used
      {
        assert pins[used..][1..] == pins[used + 1..];
        buffer.Write(pins[used]);
        used := used + 1;
      }
    }

    /** dumpData(): with a pin reader attached, send every held sample, oldest
        first. */
    method DumpData()
      requires Valid()
      modifies this, buffer
      ensures Valid()
      ensures setup.hasReader ==> Snapshot() == CaptureSpec.Dump(old(Snapshot()))
      ensures !setup.hasReader ==> Snapshot() == old(Snapshot())
    {
      if !setup.hasReader {
        return;
      }
      ghost var held := buffer.contents;
      ghost var sent: seq<CaptureSpec.Emitted> := [];
      ghost var j := 0;
      while buffer.availableCount > 0
        modifies buffer
        invariant buffer.Valid() && j <= |held|
        invariant buffer.contents == held[j..] && buffer.ignoreCount == old(buffer.ignoreCount)
        invariant sent == CaptureSpec.DumpAll(held[..j])
        decreases buffer.availableCount
      {
        var value := buffer.Read();
        CaptureSpec.DumpAllSnoc(held, j);
        sent := sent + [CaptureSpec.Dumped(value)];
        j := j + 1;
      }
      assert held[..j] == held;
      output := output + sent;
    }

    /** What capture() does once triggered: the retention split, then, unless
        continuous, the bounded capture, the stop and the dump. */
    method CaptureAfterTrigger(pins: seq<Sample>, dump: bool) returns (used: nat)
      requires Valid() && setup.hasReader && status == CaptureSpec.Triggered
      modifies this, buffer, buffer.data
      ensures Valid()
      ensures (Snapshot(), used) == CaptureSpec.AfterTriggerSteps(setup, old(Snapshot()), pins, dump)
    {
      KeepWindow();
      used := 0;
      if continuous {
        // The source streams from here on until the status changes; that
        // loop is not part of this model.
        return;
      }
      used := CaptureAll(pins);
      if buffer.availableCount < readCount {
        // The input ended before `readCount` samples were held.
        return;
      }
      SetStatus(CaptureSpec.Stopped);
      if dump {
        DumpData();
      }
    }

    /** capture(): wait for the trigger, then capture as above. Returns how
        many samples were read. */
    method Capture(pins: seq<Sample>, dump: bool) returns (used: nat)
      requires Valid() && setup.hasReader
      modifies this, buffer, buffer.data
      ensures Valid()
      ensures (Snapshot(), used) == CaptureSpec.Capture(setup, old(Snapshot()), pins, dump)
    {
      var k, hit := AwaitTrigger(pins);
      if !hit {
        assert pins[..k] == pins;
        return k;
      }
      SetStatus(CaptureSpec.Triggered);
      var n := CaptureAfterTrigger(pins[k..], dump);
      used := k + n;
    }

    /** setupDelay(divider): with a pin reader attached, set the sample rate
        the divider selects against the 100 MHz clock. */
    method SetupDelay(divider: nat)
      requires divider < Frequency.BaseClockHz
      modifies this
      ensures setup.hasReader ==>
                Snapshot() == DispatchSpec.SetCaptureFrequency(old(Snapshot()), Frequency.FrequencyOf(divider))
      ensures !setup.hasReader ==> Snapshot() == old(Snapshot())
    {
      if !setup.hasReader {
        return;
      }
      SetCaptureFrequency(Frequency.BaseClockHz / (divider + 1));
    }

    /** write(cmd, number): a tag and a 32-bit big-endian number. */
    method WriteNumber(tag: Byte, number: nat)
      requires number < 0x1_0000_0000
      modifies this
      ensures Snapshot() == old(Snapshot()).(output := old(output) + DispatchSpec.RawAll(TaggedNumber(tag, number)))
    {
      output := output + DispatchSpec.RawAll(TaggedNumber(tag, number));
    }

    /** write(cmd, str): a tag and a NUL-terminated text. */
    method WriteText(tag: Byte, text: seq<Byte>)
      modifies this
      ensures Snapshot() == old(Snapshot()).(output := old(output) + DispatchSpec.RawAll(TaggedText(tag, text)))
    {
      output := output + DispatchSpec.RawAll(TaggedText(tag, text));
    }

    /** sendMetadata(): with a pin reader attached, the description, the probe
        count, the capacity, the sample rate and the protocol version. */
    method SendMetadata()
      requires Valid()
      modifies this
      ensures setup.hasReader ==>
                Snapshot() == old(Snapshot()).(output := old(output) +
                  DispatchSpec.RawAll(Metadata(setup.pinNumbers, setup.maxCaptureSize, frequency)))
      ensures !setup.hasReader ==> Snapshot() == old(Snapshot())
    {
      if !setup.hasReader {
        return;
      }
      DispatchSpec.MetadataPieces(output, setup.pinNumbers, setup.maxCaptureSize, frequency);
      WriteText(0x01, Description);
      WriteNumber(0x20, setup.pinNumbers);
      WriteNumber(0x21, setup.maxCaptureSize);
      WriteNumber(0x23, frequency % 0x1_0000_0000);
      output := output + DispatchSpec.RawAll(ProtocolVersionTail);
    }

    /** processCommand(cmd): one SUMP command with its argument, the clock
        reading for the RESET debounce and the samples an ARM may read.
        Returns how many samples were read. */
    method ProcessCommand(cmd: int, arg: Option<CommandArg>, now: nat, pins: seq<Sample>) returns (used: nat)
      requires Valid() && DispatchSpec.Accepts(cmd, arg)
      modifies this, buffer, buffer.data
      ensures Valid()
      ensures (Snapshot(), used) == DispatchSpec.Dispatch(setup, old(Snapshot()), cmd, arg, now, pins)
    {
      used := 0;
      if !setup.hasReader {
        return;
      }
      if cmd == SumpReset {
        if now > resetTimeout {
          resetTimeout := now + DispatchSpec.ResetDebounceMs;
        }
      } else if cmd == SumpId {
        output := output + DispatchSpec.RawAll(DeviceId);
      } else if cmd == SumpGetMetadata {
        SendMetadata();
      } else if cmd == SumpArm {
        SetStatus(CaptureSpec.Armed);
        used := Capture(pins, true);
      } else if cmd == SumpTriggerMask {
        SetTriggerMask(PinBitArray(setup.width, arg.value));
      } else if cmd == SumpTriggerValues {
        SetTriggerValues(PinBitArray(setup.width, arg.value));
      } else if cmd == SumpSetDivider {
        SetupDelay(arg.value.Get32());
      } else if cmd == SumpSetReadDelayCount {
        readCount := DispatchSpec.Min(arg.value.Get16(0), setup.maxCaptureSize);
        delayCount := DispatchSpec.Min(arg.value.Get16(1), setup.maxCaptureSize);
        events := events + [CaptureSpec.ReadDelayCountEvent];
      } else if cmd == SumpSetFlags {
        continuous := DispatchSpec.ContinuousFlag(arg.value);
        events := events + [CaptureSpec.FlagsEvent];
      }
    }
  }
}
