/** Sleeping in chunks on the interval timer: kernel/drivers/timer.c. */
module Timer {
  import opened Arithmetic
  import opened Bytes

  const TICKS_PER_MS := 1193

  /** Channel 0: a control write selects low byte, then high byte; the second data write loads the count. */
  class Pit {
    var low: Option<byte>
    var counts: seq<nat>

    constructor ()
      ensures low == None && counts == []
    {
      low, counts := None, [];
    }

    method WriteControl()
      modifies this
      ensures low == None && counts == old(counts)
    {
      low := None;
    }

    method WriteData(b: byte)
      modifies this
      ensures match old(low)
              case None => low == Some(b) && counts == old(counts)
              case Some(l) => low == None && counts == old(counts) + [l + 0x100 * b as int]
    {
      match low
      case None => low := Some(b);
      case Some(l) => low, counts := None, counts + [l + 0x100 * b as int];
    }

    method Load(count: nat)
      requires count <= 0xFFFF
      modifies this
      ensures low == None && counts == old(counts) + [count]
    {
      WriteControl();
      WriteData(count % 0x100);
      WriteData(count / 0x100 % 0x100);
    }

    method PrepareSleep(ms: u32)
      modifies this
      ensures low == None && counts == old(counts) + [Count(ms)]
    {
      var ticks := Wrap32(ms * TICKS_PER_MS);
      if ticks > 0xFFFF {
        ticks := 0xFFFF;
      }
      Load(ticks);
    }

    /** The counts are those of the chunks, none of them cut off; they total the time asked for. */
    method SafeSleep(ms: u32)
      modifies this
      ensures counts == old(counts) + Scaled(Chunks(ms))
      ensures Sum(counts[|old(counts)|..]) == TICKS_PER_MS * ms
      ensures forall k :: |old(counts)| <= k < |counts| ==> counts[k] <= 0xFFFF && (ms >= 1 ==> counts[k] >= 1)
    {
      ghost var before := counts;
      var left := ms;
      while left > 50
        invariant counts + Scaled(Chunks(left)) == before + Scaled(Chunks(ms))
      {
        SleepChunk(50);
        FirstChunk(left);
        left := left - 50;
      }
      SleepChunk(left);
      FirstChunk(left);
      AddedCounts(before, ms, counts);
    }

    /** A chunk short enough to be programmed uncut. */
    method SleepChunk(ms: u32)
      requires ms <= 50
      modifies this
      ensures counts == old(counts) + [TICKS_PER_MS * ms]
    {
      PrepareSleep(ms);
      CountExactIff(ms);
    }
  }

  /** Fifty milliseconds at a time, and the rest. */
  function Chunks(ms: nat): (chunks: seq<nat>)
    ensures |chunks| >= 1
  {
    if ms > 50 then [50] + Chunks(ms - 50) else [ms]
  }

  /** The chunks add up to exactly the time; all but the last are 50 ms, and none is empty unless the time is. */
  lemma {:induction false} ChunksAddUp(ms: nat)
    ensures var chunks := Chunks(ms);
            && Sum(chunks) == ms && 50 * (|chunks| - 1) <= ms
            && (forall k :: 0 <= k < |chunks| - 1 ==> chunks[k] == 50)
            && forall k :: 0 <= k < |chunks| ==> chunks[k] <= 50 && (ms >= 1 ==> chunks[k] >= 1)
    decreases ms
  {
    if ms > 50 {
      ChunksAddUp(ms - 50);
      assert Chunks(ms)[1..] == Chunks(ms - 50);
    }
  }

  lemma FirstChunk(ms: nat)
    ensures ms > 50 ==> Scaled(Chunks(ms)) == [TICKS_PER_MS * 50] + Scaled(Chunks(ms - 50))
    ensures ms <= 50 ==> Scaled(Chunks(ms)) == [TICKS_PER_MS * ms]
  {
  }

  /** The counts a sleep adds. */
  lemma AddedCounts(before: seq<nat>, ms: nat, after: seq<nat>)
    requires after == before + Scaled(Chunks(ms))
    ensures Sum(after[|before|..]) == TICKS_PER_MS * ms
    ensures forall k :: |before| <= k < |after| ==> after[k] <= 0xFFFF && (ms >= 1 ==> after[k] >= 1)
  {
    ChunksAddUp(ms);
    CountsConserved(Chunks(ms));
    assert after[|before|..] == Scaled(Chunks(ms));
    forall k | |before| <= k < |after|
      ensures after[k] == Scaled(Chunks(ms))[k - |before|]
    {
    }
  }

  /** What is left of n in 32 bits. */
  function Wrap32(n: nat): u32 { n % 0x1_0000_0000 }

  /** The count programmed for ms. */
  function Count(ms: u32): nat {
    var ticks := Wrap32(ms * TICKS_PER_MS);
    if ticks > 0xFFFF then 0xFFFF else ticks
  }

  /** The count is the exact time up to 54 ms and for no longer time. */
  lemma CountExactIff(ms: u32)
    ensures Count(ms) == TICKS_PER_MS * ms <==> ms <= 54
  {
  }

  function Sum(s: seq<nat>): nat {
    if s == [] then 0 else s[0] + Sum(s[1..])
  }

  /** Milliseconds as timer counts. */
  function Scaled(s: seq<nat>): (r: seq<nat>)
    ensures |r| == |s|
  {
    seq(|s|, k requires 0 <= k < |s| => TICKS_PER_MS * s[k])
  }

  /**
   * The counts programmed for chunks of at most 50 ms fit in sixteen bits, are zero for no chunk
   * but an empty one, and total 1193 a millisecond.
   */
  lemma {:induction false} CountsConserved(chunks: seq<nat>)
    requires forall k :: 0 <= k < |chunks| ==> chunks[k] <= 50
    ensures Sum(Scaled(chunks)) == TICKS_PER_MS * Sum(chunks)
    ensures forall k :: 0 <= k < |chunks| ==>
      Scaled(chunks)[k] <= 0xFFFF && (Scaled(chunks)[k] > 0 <==> chunks[k] > 0)
    decreases |chunks|
  {
    if chunks != [] {
      assert Scaled(chunks)[1..] == Scaled(chunks[1..]);
      CountsConserved(chunks[1..]);
    }
  }
}
