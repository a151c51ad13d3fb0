/** What the capture ring buffer holds, as a value: the samples it keeps,
    oldest first, and how many future writes it will drop. The buffer keeps at
    most `cap` samples and overwrites the oldest when full. */
module RingSpec {
  import opened SumpProtocol

  datatype Ring = Ring(contents: seq<Sample>, ignore: nat)

  const Empty: Ring := Ring([], 0)

  /** The last `k` elements of `s` (all of `s` when it is shorter). */
  function Newest(s: seq<Sample>, k: nat): (w: seq<Sample>)
    ensures |w| == if |s| < k then |s| else k
  {
    if |s| <= k then s else s[|s| - k..]
  }

  /** write(v): a pending ignore count swallows the sample; otherwise the
      sample is appended and, when the buffer is full, the oldest is lost. */
  function Write(r: Ring, cap: nat, v: Sample): (r': Ring)
    requires 0 < cap && |r.contents| <= cap
    ensures |r'.contents| <= cap
    ensures r.ignore > 0 ==> r'.contents == r.contents && r'.ignore == r.ignore - 1
    ensures r.ignore == 0 ==> r'.contents == Newest(r.contents + [v], cap) && r'.ignore == 0
  {
    if r.ignore > 0 then Ring(r.contents, r.ignore - 1)
    else if |r.contents| < cap then Ring(r.contents + [v], 0)
    else Ring(r.contents[1..] + [v], 0)
  }

  /** read(): the oldest sample, or 0 without any change when empty. */
  function Read(r: Ring): (res: (Sample, Ring))
    ensures r.contents == [] ==> res == (0, r)
    ensures r.contents != [] ==> [res.0] + res.1.contents == r.contents && res.1.ignore == r.ignore
  {
    if r.contents == [] then (0, r) else (r.contents[0], Ring(r.contents[1..], r.ignore))
  }

  /** `k` successive reads. */
  function Drain(r: Ring, k: nat): Ring
    decreases k
  {
    if k == 0 then r else Drain(Read(r).1, k - 1)
  }

  lemma {:induction false} DrainDrops(r: Ring, k: nat)
    ensures Drain(r, k).ignore == r.ignore
    ensures Drain(r, k).contents == r.contents[if k < |r.contents| then k else |r.contents|..]
    decreases k
  {
    if k > 0 {
      DrainDrops(Read(r).1, k - 1);
      if r.contents != [] {
        assert r.contents[1..][if k - 1 < |r.contents| - 1 then k - 1 else |r.contents| - 1..]
            == r.contents[if k < |r.contents| then k else |r.contents|..];
      }
    }
  }

  /** clear(n): arm the ignore count with what `n` exceeds the held samples
      by, then read up to `n` samples away. */
  function ClearN(r: Ring, n: nat): (r': Ring)
    ensures r'.contents == r.contents[if n < |r.contents| then n else |r.contents|..]
    ensures r'.ignore == if n > |r.contents| then n - |r.contents| else 0
  {
    var armed := Ring(r.contents, if n > |r.contents| then n - |r.contents| else 0);
    DrainDrops(armed, n);
    Drain(armed, n)
  }

  /** Successive writes, first element first. */
  function WriteAll(r: Ring, cap: nat, vs: seq<Sample>): (r': Ring)
    requires 0 < cap && |r.contents| <= cap
    ensures |r'.contents| <= cap
    decreases |vs|
  {
    if vs == [] then r else WriteAll(Write(r, cap, vs[0]), cap, vs[1..])
  }

  /** Writing one more sample after a run of writes. */
  lemma {:induction false} WriteAllSnoc(r: Ring, cap: nat, vs: seq<Sample>, v: Sample)
    requires 0 < cap && |r.contents| <= cap
    ensures WriteAll(r, cap, vs + [v]) == Write(WriteAll(r, cap, vs), cap, v)
    decreases |vs|
  {
    if vs == [] {
      assert [] + [v] == [v];
      assert [v][1..] == [];
    } else {
      WriteAllSnoc(Write(r, cap, vs[0]), cap, vs[1..], v);
      assert (vs + [v])[1..] == vs[1..] + [v];
    }
  }

  lemma NewestTwice(s: seq<Sample>, t: seq<Sample>, k: nat)
    ensures Newest(Newest(s, k) + t, k) == Newest(s + t, k)
  {
    var a := Newest(s, k);
    if |a + t| > k && |s + t| > k {
      assert (a + t)[|a + t| - k..] == (s + t)[|s + t| - k..];
    }
  }

  /** With nothing to ignore, the buffer holds the newest `cap` of everything
      written, in write order: overwriting keeps a sliding window. */
  lemma {:induction false} WriteAllKeepsNewest(r: Ring, cap: nat, vs: seq<Sample>)
    requires 0 < cap && |r.contents| <= cap && r.ignore == 0
    ensures WriteAll(r, cap, vs) == Ring(Newest(r.contents + vs, cap), 0)
    decreases |vs|
  {
    if vs == [] {
      assert r.contents + vs == r.contents;
    } else {
      var r1 := Write(r, cap, vs[0]);
      WriteAllKeepsNewest(r1, cap, vs[1..]);
      NewestTwice(r.contents + [vs[0]], vs[1..], cap);
      assert r.contents + [vs[0]] + vs[1..] == r.contents + vs;
    }
  }

  /** Writes while an ignore count is pending only use it up. */
  lemma {:induction false} IgnoredWritesDropped(r: Ring, cap: nat, vs: seq<Sample>)
    requires 0 < cap && |r.contents| <= cap && |vs| <= r.ignore
    ensures WriteAll(r, cap, vs) == Ring(r.contents, r.ignore - |vs|)
    decreases |vs|
  {
    if vs != [] {
      IgnoredWritesDropped(Write(r, cap, vs[0]), cap, vs[1..]);
    }
  }

  /** Writing into a ring with a pending ignore count: the first `ignore`
      samples are dropped, the rest are written as usual. */
  lemma {:induction false} WriteAllAfterIgnore(r: Ring, cap: nat, vs: seq<Sample>)
    requires 0 < cap && |r.contents| <= cap && r.ignore <= |vs|
    ensures WriteAll(r, cap, vs) == WriteAll(Ring(r.contents, 0), cap, vs[r.ignore..])
    decreases |vs|
  {
    if r.ignore > 0 {
      WriteAllAfterIgnore(Write(r, cap, vs[0]), cap, vs[1..]);
      assert vs[1..][r.ignore - 1..] == vs[r.ignore..];
    }
  }

  /** Over-clearing by `m` empties the buffer; the next `m` writes are dropped
      and the one after them is the first to be stored. */
  lemma OverClearLookahead(r: Ring, cap: nat, m: nat, vs: seq<Sample>)
    requires 0 < cap && |r.contents| <= cap && m > 0 && |vs| == m + 1
    ensures WriteAll(ClearN(r, |r.contents| + m), cap, vs[..m]) == Empty
    ensures WriteAll(ClearN(r, |r.contents| + m), cap, vs) == Ring([vs[m]], 0)
  {
    var cleared := ClearN(r, |r.contents| + m);
    assert cleared == Ring([], m);
    IgnoredWritesDropped(cleared, cap, vs[..m]);
    WriteAllAfterIgnore(cleared, cap, vs);
    WriteAllKeepsNewest(Ring([], 0), cap, vs[m..]);
    assert [] + vs[m..] == [vs[m]];
  }

  // ---------------------------------------------------------------------------
  // The write index as the source computes it. After each stored write it
  // advances by one and wraps to 0 only once it EXCEEDS the capacity, so it
  // takes capacity + 1 distinct values.

  function NextWritePos(pos: nat, size: nat): nat {
    if pos + 1 > size then 0 else pos + 1
  }

  /** The slot the next write uses after `k` stored writes since clear(). */
  function WritePosAfter(size: nat, k: nat): (p: nat)
    ensures p <= size
    decreases k
  {
    if k == 0 then 0 else NextWritePos(WritePosAfter(size, k - 1), size)
  }

  /** Until it wraps, the write index counts the stored writes. */
  lemma {:induction false} WritePosCounts(size: nat, k: nat)
    requires k <= size
    ensures WritePosAfter(size, k) == k
    decreases k
  {
    if k > 0 {
      WritePosCounts(size, k - 1);
    }
  }

  /** The write index repeats after size + 1 writes, not after size. */
  lemma {:induction false} WritePosPeriod(size: nat, k: nat)
    ensures WritePosAfter(size, k + size + 1) == WritePosAfter(size, k)
    decreases k
  {
    if k == 0 {
      WritePosCounts(size, size);
    } else {
      WritePosPeriod(size, k - 1);
    }
  }

  /** After `size` stored writes from a cleared buffer the next write goes to
      slot `size`, one past the last index of an array of `size` elements. */
  lemma WriteReachesUnallocatedSlot(size: nat)
    requires size > 0
    ensures WritePosAfter(size, size) == size
    ensures !(WritePosAfter(size, size) < size)
  {
    WritePosCounts(size, size);
  }
}
