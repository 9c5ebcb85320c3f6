/**
 Writes to a cyclic service: section 3.4.3 of the FeliCa Card User's Manual,
 Excerpted Edition, as the emulator applies them. The ring holds the newest
 generation first; a write that repeats the newest generations is left out.
 */
module Cyclic {
  import opened Bytes
  import opened Wrappers

  const SF2_CYCLIC_WRITE_OVERFLOW: byte := 0xAF

  datatype CyclicWrite<Block> = Updated(ring: seq<Block>) | Unchanged

  method ApplyCyclicWrite<Block(==)>(stored: seq<Block>, commandBlocks: seq<Block>)
    returns (result: Result<CyclicWrite<Block>, byte>)
    ensures result == Err(0xAF) <==> |commandBlocks| > |stored|
    ensures result.Ok? <==> |commandBlocks| <= |stored|
    ensures result.Ok? ==> RingAfter(stored, [commandBlocks])
                           == match result.value { case Updated(ring) => ring case Unchanged => stored }
    ensures result.Ok? ==> (result.value.Unchanged? <==> Repeats(stored, commandBlocks))
  {
    if |commandBlocks| > |stored| {
      return Err(SF2_CYCLIC_WRITE_OVERFLOW);
    }
    assert RingAfter(stored, [commandBlocks]) == WriteRing(stored, commandBlocks) by {
      assert [commandBlocks][1..] == [];
    }
    if stored[..|commandBlocks|] == commandBlocks {
      return Ok(Unchanged);
    }
    var updated := commandBlocks;
    updated := updated + stored[..|stored| - |commandBlocks|];
    result := Ok(Updated(updated));
  }

  /** Whether a write repeats the newest generations block for block. */
  predicate Repeats<Block(==)>(newestFirst: seq<Block>, commandBlocks: seq<Block>) {
    commandBlocks <= newestFirst
  }

  // ----------------------------------------------------------------- the ring

  /** The ring after one write; a write longer than the ring is refused. */
  function WriteRing<Block(==)>(ring: seq<Block>, commandBlocks: seq<Block>): (next: seq<Block>)
    ensures |next| == |ring|
  {
    if |commandBlocks| > |ring| || Repeats(ring, commandBlocks) then ring
    else commandBlocks + ring[..|ring| - |commandBlocks|]
  }

  function RingAfter<Block(==)>(ring: seq<Block>, writes: seq<seq<Block>>): (next: seq<Block>)
    ensures |next| == |ring|
    decreases |writes|
  {
    if writes == [] then ring else RingAfter(WriteRing(ring, writes[0]), writes[1..])
  }

  // ------------------------------------------------------------ the unbounded log

  /** A log that forgets nothing: every accepted write that is no exact repeat goes on top. */
  function WriteLog<Block(==)>(log: seq<Block>, commandBlocks: seq<Block>, capacity: nat): seq<Block> {
    if |commandBlocks| > capacity || Repeats(log, commandBlocks) then log else commandBlocks + log
  }

  function LogAfter<Block(==)>(log: seq<Block>, writes: seq<seq<Block>>, capacity: nat): seq<Block>
    decreases |writes|
  {
    if writes == [] then log else LogAfter(WriteLog(log, writes[0], capacity), writes[1..], capacity)
  }

  /** The test for a repeat needs no more of the log than the ring holds. */
  lemma RepeatsAgree<Block>(log: seq<Block>, commandBlocks: seq<Block>, capacity: nat)
    requires |commandBlocks| <= capacity <= |log|
    ensures Repeats(log[..capacity], commandBlocks) <==> Repeats(log, commandBlocks)
  {
    assert log[..capacity][..|commandBlocks|] == log[..|commandBlocks|];
  }

  /** After any run of writes the ring is the newest part of the log, as long as it ever was. */
  lemma {:induction false} RingRefinesLog<Block>(log: seq<Block>, writes: seq<seq<Block>>, capacity: nat)
    requires capacity <= |log|
    ensures capacity <= |LogAfter(log, writes, capacity)|
    ensures RingAfter(log[..capacity], writes) == LogAfter(log, writes, capacity)[..capacity]
    decreases |writes|
  {
    if writes != [] {
      var ring, write := log[..capacity], writes[0];
      var next := WriteLog(log, write, capacity);
      if |write| <= capacity {
        RepeatsAgree(log, write, capacity);
        assert (write + log)[..capacity] == write + log[..capacity - |write|];
        assert log[..capacity][..capacity - |write|] == log[..capacity - |write|];
      }
      assert WriteRing(ring, write) == next[..capacity];
      RingRefinesLog(next, writes[1..], capacity);
    }
  }
}
