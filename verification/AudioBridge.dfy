/** The PCM ring buffer of `audio_bridge.cpp`, refining a bounded queue of samples. */
module AudioBridge {
  import opened Bytes

  type sample = x: int | -0x8000 <= x < 0x8000

  const RING_BUFFER_SIZE: nat := 65536

  /** Where in the ring the i-th queued sample stands. */
  function SlotOf(readPos: nat, i: nat): (slot: nat)
    ensures slot < RING_BUFFER_SIZE
  {
    (readPos + i) % RING_BUFFER_SIZE
  }

  /** The n samples from readPos on, around the ring. */
  function Queued(ring: seq<sample>, readPos: nat, n: nat): (q: seq<sample>)
    requires |ring| == RING_BUFFER_SIZE
    ensures |q| == n
  {
    seq(n, i requires 0 <= i => ring[SlotOf(readPos, i)])
  }

  /** Going n slots and one more is going n + 1. */
  lemma SlotNext(readPos: nat, n: nat)
    ensures SlotOf(SlotOf(readPos, n), 1) == SlotOf(readPos, n + 1) == SlotOf(SlotOf(readPos, 1), n)
  {
  }

  lemma PushSlot(ring: seq<sample>, readPos: nat, n: nat, x: sample)
    requires |ring| == RING_BUFFER_SIZE && n < RING_BUFFER_SIZE
    ensures Queued(ring[SlotOf(readPos, n) := x], readPos, n + 1) == Queued(ring, readPos, n) + [x]
  {
    forall i | 0 <= i < n ensures SlotOf(readPos, i) != SlotOf(readPos, n) {}
  }

  lemma PopSlot(ring: seq<sample>, readPos: nat, n: nat)
    requires |ring| == RING_BUFFER_SIZE && readPos < RING_BUFFER_SIZE && n > 0
    ensures Queued(ring, readPos, n) == [ring[readPos]] + Queued(ring, SlotOf(readPos, 1), n - 1)
  {
    forall i | 0 < i < n ensures SlotOf(readPos, i) == SlotOf(SlotOf(readPos, 1), i - 1) {}
  }

  lemma WriteStep(q: Queue, xs: seq<sample>)
    requires |q.queued| <= RING_BUFFER_SIZE
    ensures var n := Min(|xs|, RING_BUFFER_SIZE - |q.queued|);
            Step(q, Write(xs)) == Queue(q.queued + xs[..n], q.accepted + xs[..n], q.delivered)
  {
  }

  /** A prefix that replaces the start of a buffer grows by one store. */
  lemma StoreNext(xs: seq<sample>, was: seq<sample>, i: nat)
    requires i < |xs| && i < |was|
    ensures |xs[..i] + was[i..]| == |was| && (xs[..i] + was[i..])[i := xs[i]] == xs[..i + 1] + was[i + 1..]
  {
  }

  class AudioBridge {
    var isRunning: bool
    var channels: nat
    var ring: array<sample>
    var writePos: nat
    var readPos: nat
    var availableSamples: nat
    var totalFramesWritten: nat
    var totalFramesRead: nat
    var underruns: nat
    ghost var accepted: seq<sample>   // every sample taken since initialize
    ghost var delivered: seq<sample>  // every sample handed out since initialize

    constructor ()
      ensures Valid() && !isRunning && Contents() == [] && fresh(ring)
    {
      isRunning, channels := false, 2;
      writePos, readPos, availableSamples := 0, 0, 0;
      totalFramesWritten, totalFramesRead, underruns := 0, 0, 0;
      accepted, delivered := [], [];
      ring := new sample[0];
    }

    /** The queued samples, oldest first. */
    ghost function Contents(): (q: seq<sample>)
      requires isRunning ==> ring.Length == RING_BUFFER_SIZE
      reads this, ring
    {
      if isRunning then Queued(ring[..], readPos, availableSamples) else []
    }

    /** What was taken is what was handed out and then what is queued; the write position is
        `availableSamples` ahead of the read position around the ring. */
    ghost predicate Valid()
      reads this, ring
    {
      && (channels == 1 || channels == 2)
      && (if isRunning then
            && ring.Length == RING_BUFFER_SIZE && availableSamples <= RING_BUFFER_SIZE
            && readPos < RING_BUFFER_SIZE && writePos == SlotOf(readPos, availableSamples)
            && accepted == delivered + Contents()
          else availableSamples == 0)
    }

    /** The abstract queue of the bridge. */
    ghost function View(): Queue
      requires isRunning ==> ring.Length == RING_BUFFER_SIZE
      reads this, ring
    {
      Queue(Contents(), accepted, delivered)
    }

    method Initialize(requestedChannels: nat)
      modifies this
      ensures Valid() && isRunning && fresh(ring) && Contents() == [] && accepted == [] == delivered
      ensures channels == if requestedChannels == 1 then 1 else 2
    {
      channels := if requestedChannels == 1 || requestedChannels == 2 then requestedChannels else 2;
      ring := new sample[RING_BUFFER_SIZE](_ => 0);
      writePos, readPos, availableSamples := 0, 0, 0;
      totalFramesWritten, totalFramesRead, underruns := 0, 0, 0;
      accepted, delivered := [], [];
      isRunning := true;
    }

    method Shutdown()
      requires Valid()
      modifies this
      ensures Valid() && !isRunning && availableSamples == 0 && fresh(ring)
    {
      isRunning := false;
      ring := new sample[0];
      writePos, readPos, availableSamples := 0, 0, 0;
    }

    /** Takes as many samples as fit behind those queued, and no more. */
    method WriteSamples(samples: array?<sample>, count: nat) returns (written: nat)
      requires Valid() && (samples != null ==> count <= samples.Length && samples != ring)
      modifies `writePos, `availableSamples, `totalFramesWritten, `accepted, ring
      ensures Valid()
      ensures written == if old(isRunning) && samples != null
                         then Min(count, 65536 - old(availableSamples)) else 0
      ensures old(isRunning) && samples != null ==> View() == Step(old(View()), Write(samples[..count]))
      ensures !old(isRunning) || samples == null ==> View() == old(View())
      ensures totalFramesWritten == old(totalFramesWritten) + written / channels
    {
      if !isRunning || samples == null || count == 0 {
        if samples != null {
          assert samples[..0] == [];
        }
        return 0;
      }
      var spaceLeft := RING_BUFFER_SIZE - availableSamples;
      var toWrite := Min(count, spaceLeft);
      hide SlotOf, Queued, Step;
      WriteStep(View(), samples[..count]);
      assert samples[..count][..toWrite] == samples[..toWrite];
      Assoc(delivered, Contents(), samples[..toWrite]);
      StoreAll(samples, toWrite);
      accepted := accepted + samples[..toWrite];
      availableSamples := availableSamples + toWrite;
      totalFramesWritten := totalFramesWritten + toWrite / channels;
      written := toWrite;
    }

    /** The write loop. */
    method StoreAll(samples: array<sample>, toWrite: nat)
      requires ring.Length == RING_BUFFER_SIZE && samples != ring && toWrite <= samples.Length
      requires availableSamples + toWrite <= RING_BUFFER_SIZE && writePos == SlotOf(readPos, availableSamples)
      modifies `writePos, ring
      ensures writePos == SlotOf(readPos, availableSamples + toWrite)
      ensures Queued(ring[..], readPos, availableSamples + toWrite)
           == old(Queued(ring[..], readPos, availableSamples)) + samples[..toWrite]
    {
      hide SlotOf, Queued;
      ghost var queued := Queued(ring[..], readPos, availableSamples);
      assert samples[..0] == [] && queued + [] == queued;
      for i := 0 to toWrite
        invariant writePos == SlotOf(readPos, availableSamples + i)
        invariant Queued(ring[..], readPos, availableSamples + i) == queued + samples[..i]
      {
        PushSlot(ring[..], readPos, availableSamples + i, samples[i]);
        SlotNext(readPos, availableSamples + i);
        Assoc(queued, samples[..i], [samples[i]]);
        assert samples[..i + 1] == samples[..i] + [samples[i]];
        StoreSample(samples[i]);
      }
    }

    method TakeSample() returns (x: sample)
      requires ring.Length == RING_BUFFER_SIZE && readPos < RING_BUFFER_SIZE
      modifies `readPos
      ensures x == ring[old(readPos)] && readPos == SlotOf(old(readPos), 1)
    {
      x := ring[readPos];
      readPos := (readPos + 1) % RING_BUFFER_SIZE;
    }

    method StoreSample(x: sample)
      requires ring.Length == RING_BUFFER_SIZE && writePos < RING_BUFFER_SIZE
      modifies `writePos, ring
      ensures ring[..] == old(ring[..])[old(writePos) := x]
      ensures writePos == SlotOf(old(writePos), 1)
    {
      ring[writePos] := x;
      writePos := (writePos + 1) % RING_BUFFER_SIZE;
    }

    /** Hands out the oldest samples and pads the rest of the request with silence. */
    method ReadSamples(outSamples: array?<sample>, maxCount: nat) returns (taken: nat)
      requires Valid() && (outSamples != null ==> maxCount <= outSamples.Length && outSamples != ring)
      modifies `readPos, `availableSamples, `totalFramesRead, `delivered, `underruns
      modifies if outSamples != null then {outSamples} else {}
      ensures Valid()
      ensures taken == if old(isRunning) && outSamples != null then Min(maxCount, old(availableSamples)) else 0
      ensures old(isRunning) && outSamples != null ==> View() == Step(old(View()), Read(maxCount))
      ensures !old(isRunning) || outSamples == null ==> View() == old(View())
      ensures outSamples != null && old(isRunning) ==>
                outSamples[..taken] == old(Contents())[..taken]
                && forall j :: taken <= j < maxCount ==> outSamples[j] == 0
      ensures outSamples != null ==> outSamples[maxCount..] == old(outSamples[maxCount..])
      ensures underruns == old(underruns)
              + if old(isRunning) && outSamples != null && maxCount > 0 && taken == 0 then 1 else 0
      ensures totalFramesRead == old(totalFramesRead) + taken / channels
    {
      ghost var queued := Contents();
      if !isRunning || outSamples == null || maxCount == 0 {
        assert queued[0..] == queued && delivered + queued[..0] == delivered;
        return 0;
      }
      var toRead := Min(maxCount, availableSamples);
      assert queued[0..] == queued;
      hide SlotOf, Queued;
      TakeAll(outSamples, toRead);
      availableSamples := availableSamples - toRead;
      totalFramesRead := totalFramesRead + toRead / channels;
      delivered := delivered + queued[..toRead];
      Rejoin(old(delivered), queued, toRead);
      if toRead < maxCount {
        Silence(outSamples, toRead, maxCount);
        if toRead == 0 {
          underruns := underruns + 1;
        }
      }
      taken := toRead;
    }

    static method Silence(outSamples: array<sample>, from: nat, to: nat)
      requires from <= to <= outSamples.Length
      modifies outSamples
      ensures outSamples[..from] == old(outSamples[..from]) && outSamples[to..] == old(outSamples[to..])
      ensures forall j :: from <= j < to ==> outSamples[j] == 0
    {
      forall j | from <= j < to {
        outSamples[j] := 0;
      }
    }

    /** The read loop. */
    method TakeAll(outSamples: array<sample>, toRead: nat)
      requires ring.Length == RING_BUFFER_SIZE && outSamples != ring && toRead <= outSamples.Length
      requires toRead <= availableSamples && readPos < RING_BUFFER_SIZE
      requires writePos == SlotOf(readPos, availableSamples)
      modifies `readPos, outSamples
      ensures readPos < RING_BUFFER_SIZE && writePos == SlotOf(readPos, availableSamples - toRead)
      ensures var queued := old(Queued(ring[..], readPos, availableSamples));
              && Queued(ring[..], readPos, availableSamples - toRead) == queued[toRead..]
              && outSamples[..toRead] == queued[..toRead]
      ensures outSamples[toRead..] == old(outSamples[toRead..])
    {
      hide SlotOf, Queued;
      ghost var queued, was := Queued(ring[..], readPos, availableSamples), outSamples[..];
      assert queued[0..] == queued;
      for i := 0 to toRead
        invariant readPos < RING_BUFFER_SIZE && writePos == SlotOf(readPos, availableSamples - i)
        invariant Queued(ring[..], readPos, availableSamples - i) == queued[i..]
        invariant outSamples[..] == queued[..i] + was[i..]
      {
        PopSlot(ring[..], readPos, availableSamples - i);
        SlotNext(readPos, availableSamples - i - 1);
        assert queued[i] == queued[i..][0] && queued[i..][1..] == queued[i + 1..];
        StoreNext(queued, was, i);
        outSamples[i] := TakeSample();
      }
      CutAppend(queued[..toRead], was[toRead..], toRead);
    }
  }

  // ---------------------------------------------------------------------------
  // The bounded queue the ring refines
  // ---------------------------------------------------------------------------

  datatype Queue = Queue(queued: seq<sample>, accepted: seq<sample>, delivered: seq<sample>)

  datatype Call = Write(samples: seq<sample>) | Read(maxCount: nat)

  function Step(q: Queue, c: Call): Queue
    requires |q.queued| <= RING_BUFFER_SIZE
  {
    match c
    case Write(xs) =>
      var n := Min(|xs|, RING_BUFFER_SIZE - |q.queued|);
      Queue(q.queued + xs[..n], q.accepted + xs[..n], q.delivered)
    case Read(m) =>
      var n := Min(m, |q.queued|);
      Queue(q.queued[n..], q.accepted, q.delivered + q.queued[..n])
  }

  function RunAll(q: Queue, cs: seq<Call>): Queue
    requires |q.queued| <= RING_BUFFER_SIZE
    decreases |cs|
  {
    if cs == [] then q else RunAll(Step(q, cs[0]), cs[1..])
  }

  /** Over every run the samples read are a prefix of the samples accepted, in order, and what is
      missing is exactly what is queued, never more than the capacity. */
  lemma {:induction false} ReadsArePrefix(q: Queue, cs: seq<Call>)
    requires |q.queued| <= RING_BUFFER_SIZE && q.accepted == q.delivered + q.queued
    ensures var r := RunAll(q, cs);
            && r.delivered <= r.accepted && r.accepted == r.delivered + r.queued
            && |r.accepted| - |r.delivered| == |r.queued| <= 65536
            && q.delivered <= r.delivered && q.accepted <= r.accepted
    decreases |cs|
  {
    if cs != [] {
      var n := Step(q, cs[0]);
      match cs[0] {
        case Write(xs) => Assoc(q.delivered, q.queued, xs[..Min(|xs|, RING_BUFFER_SIZE - |q.queued|)]);
        case Read(m) => Rejoin(q.delivered, q.queued, Min(m, |q.queued|));
      }
      ReadsArePrefix(n, cs[1..]);
    }
  }

  lemma Rejoin(a: seq<sample>, b: seq<sample>, n: nat)
    requires n <= |b|
    ensures a + b[..n] + b[n..] == a + b
  {
  }
}
