/** The capture ring buffer as the firmware keeps it: an array and four
    counters updated in place. The write and read indices wrap only when they
    EXCEED `sizeCount`, so they run over `sizeCount + 1` slots; the array here
    has that many slots, which makes every access in bounds. */
module RingBuffers {
  import opened SumpProtocol
  import RingSpec

  /** The array slot of the sample `i` places after `readPos`, for indices
      running over `slots` slots. */
  function SlotOf(readPos: nat, i: nat, slots: nat): (s: nat)
    requires readPos <= slots && i < slots
    ensures s < slots
  {
    if readPos + i < slots then readPos + i else readPos + i - slots
  }

  lemma ModBelow(x: nat, m: nat)
    requires x < m
    ensures x % m == x
  {
  }

  lemma ModOnce(x: nat, m: nat)
    requires m <= x < 2 * m
    ensures x % m == x - m
  {
    assert x == m * 1 + (x - m);
  }

  class RingBuffer {
    const sizeCount: nat
    const data: array<Sample>
    var writePos: nat
    var readPos: nat
    var availableCount: nat
    var ignoreCount: nat

    /** The held samples, oldest first. */
    ghost var contents: seq<Sample>

    /** The array and the capacity, which no operation changes. */
    ghost predicate Shaped()
      reads this
    {
      sizeCount > 0 && data.Length == sizeCount + 1
    }

    ghost predicate Valid()
      reads this, data
    {
      Shaped() &&
      writePos <= sizeCount && readPos <= sizeCount + 1 && availableCount <= sizeCount &&
      writePos == SlotOf(readPos, availableCount, sizeCount + 1) &&
      |contents| == availableCount &&
      forall i | 0 <= i < availableCount :: contents[i] == data[SlotOf(readPos, i, sizeCount + 1)]
    }

    /** The index invariant of the source's arithmetic: the write index is
        `availableCount` slots past the read index, modulo `sizeCount + 1`. */
    lemma IndexInvariant()
      requires Valid()
      ensures (readPos + availableCount) % (sizeCount + 1) == writePos
    {
      var x := readPos + availableCount;
      if x < sizeCount + 1 {
        ModBelow(x, sizeCount + 1);
      } else {
        ModOnce(x, sizeCount + 1);
      }
    }

    /** The buffer as a value. */
    ghost function State(): RingSpec.Ring
      reads this
    {
      RingSpec.Ring(contents, ignoreCount)
    }

    constructor (size: nat)
      requires size > 0
      ensures Valid() && fresh(data)
      ensures sizeCount == size && State() == RingSpec.Empty
      ensures writePos == 0 && readPos == 0
    {
      sizeCount := size;
      data := new Sample[size + 1];
      writePos, readPos, availableCount, ignoreCount := 0, 0, 0, 0;
      contents := [];
    }

    /** write(value) */
    method Write(value: Sample)
      requires Valid()
      modifies this, data
      ensures Valid()
      ensures State() == RingSpec.Write(old(State()), sizeCount, value)
      ensures old(ignoreCount) > 0 ==>
                writePos == old(writePos) && readPos == old(readPos) &&
                availableCount == old(availableCount) && data[..] == old(data[..])
      ensures old(ignoreCount) == 0 ==> writePos == RingSpec.NextWritePos(old(writePos), sizeCount)
    {
      if ignoreCount > 0 {
        ignoreCount := ignoreCount - 1;
        return;
      }
      Store(value);
    }

    /** The storing half of write(): the sample goes to the write index,
        which advances; when full, the oldest sample is given up. */
    method Store(value: Sample)
      requires Valid() && ignoreCount == 0
      modifies this, data
      ensures Valid()
      ensures State() == RingSpec.Write(old(State()), sizeCount, value)
      ensures writePos == RingSpec.NextWritePos(old(writePos), sizeCount)
    {
      var slots := sizeCount + 1;
      ghost var oldRead := readPos;
      data[writePos] := value;
      writePos := writePos + 1;
      if writePos > sizeCount {
        writePos := 0;
      }
      if availableCount < sizeCount {
        availableCount := availableCount + 1;
        contents := contents + [value];
        forall i | 0 <= i < availableCount
          ensures contents[i] == data[SlotOf(readPos, i, slots)]
        {
          assert i < availableCount - 1 ==> SlotOf(readPos, i, slots) != old(writePos);
        }
      } else {
        readPos := writePos + 1;
        contents := contents[1..] + [value];
        forall i | 0 <= i < availableCount
          ensures contents[i] == data[SlotOf(readPos, i, slots)]
        {
          if i < availableCount - 1 {
            assert SlotOf(readPos, i, slots) == SlotOf(oldRead, i + 1, slots);
          }
        }
      }
    }

    /** read() */
    method Read() returns (result: Sample)
      requires Valid()
      modifies this
      ensures Valid()
      ensures (result, State()) == RingSpec.Read(old(State()))
      ensures old(availableCount) == 0 ==>
                writePos == old(writePos) && readPos == old(readPos) && availableCount == 0
    {
      result := 0;
      if availableCount > 0 {
        if readPos > sizeCount {
          readPos := 0;
        }
        result := data[readPos];
        readPos := readPos + 1;
        availableCount := availableCount - 1;
        contents := contents[1..];
      }
    }

    /** clear(): empty, with nothing to ignore. */
    method Clear()
      requires Shaped()
      modifies this
      ensures Valid()
      ensures State() == RingSpec.Empty
      ensures writePos == 0 && readPos == 0 && availableCount == 0 && ignoreCount == 0
    {
      ignoreCount := 0;
      availableCount := 0;
      writePos := 0;
      readPos := 0;
      contents := [];
    }

    /** clear(count): drop up to `count` held samples by reading them, and
        arm the ignore count with the excess over what was held. */
    method ClearN(count: nat)
      requires Valid()
      modifies this
      ensures Valid()
      ensures State() == RingSpec.ClearN(old(State()), count)
    {
      ignoreCount := 0;
      if count > availableCount {
        ignoreCount := count - availableCount;
      }
      var j := 0;
      while j < count && availableCount > 0
        invariant Valid()
        invariant j <= count
        invariant j <= |old(contents)| && contents == old(contents)[j..]
        invariant ignoreCount == if count > |old(contents)| then count - |old(contents)| else 0
      {
        var _ := Read();
        j := j + 1;
      }
    }

    /** available() */
    function Available(): (n: nat)
      reads this, data
      requires Valid()
      ensures n == |contents| && n <= sizeCount
    {
      availableCount
    }

    /** size() */
    function Size(): (n: nat)
      reads this, data
      requires Valid()
      ensures n > 0 && |contents| <= n
    {
      sizeCount
    }
  }
}
