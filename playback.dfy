/**
 * The audio side of the client (conversation.py): `binary_msg_handler` puts the audio
 * chunks received from the server on a FIFO queue, and `audio_playback` drains the queue
 * into the output device, one buffer at a time.
 *
 * The device is represented only by the ghost sequence of what was written to it. The
 * endless `while True` loop and the suspending `await audio_queue.get()` become a finite
 * drain of what the queue holds.
 */
module Playback {
  import opened Framing

  /** Associativity of `+` on sequences of chunks, stated once: left to the solver, the
      nested sequence equality behind it is very expensive. */
  lemma Associate(a: seq<Chunk>, b: seq<Chunk>, c: seq<Chunk>)
    ensures (a + b) + c == a + (b + c)
  {
  }

  /** The empty input has no groups and nothing pending (the starting point of the drain
      loop's invariant), stated apart so the solver need not unfold `Segments` there. */
  lemma NothingTaken()
    ensures Segments([]) == Segmentation([], [])
  {
    assert Concat<Chunk>([]) == [];
  }

  /** Bookkeeping of one whole round of the drain. */
  lemma TakeRound(taken: seq<Chunk>, before: seq<Chunk>)
    requires Segments(taken).rest == []
    requires ChunkSize <= |Concat(before)|
    ensures var g := before[..FillCount(before, 0)];
            && before == g + before[FillCount(before, 0)..]
            && Segments(taken + g).rest == []
            && Writes(Segments(taken + g).groups) == Writes(Segments(taken).groups) + [Concat(g)]
  {
    FirstGroup(before);
    SegmentsExtend(taken, before[..FillCount(before, 0)]);
  }

  /** The last, partial round of the drain: a remainder too short for a write stays
      pending and adds nothing to the writes. */
  lemma LastRound(taken: seq<Chunk>, last: seq<Chunk>)
    requires Segments(taken).rest == []
    requires |Concat(last)| < ChunkSize
    ensures FillCount(last, 0) == |last|
    ensures Frames(taken + last) == Playout(Writes(Segments(taken).groups), Concat(last))
  {
    FillCountStops(last, 0);
    var a := Segments(taken);
    assert Concat(a.groups) == taken;
    SegmentsUnique(taken + last, Segmentation(a.groups, last));
  }

  /** Between rounds, the device has received every dequeued byte, in order: the
      concatenated writes are the concatenated dequeued chunks. */
  lemma WrittenIsDequeued(p: AudioPipeline)
    requires p.Valid()
    ensures Concat(p.written) == Concat(p.dequeued)
  {
    var s := Segments(p.dequeued);
    assert Concat<bv8>(s.rest) == [];
    assert Frames(p.dequeued) == Playout(p.written, []);
  }

  /** What the binary-message callback may be handed. */
  datatype Payload = Bytes(data: Chunk) | ByteArray(data: Chunk) | NotBytes

  class AudioPipeline {
    /** `audio_queue`: the chunks received and not yet played, oldest first. */
    var queue: seq<Chunk>
    /** Every chunk taken off the queue so far, in the order taken. */
    ghost var dequeued: seq<Chunk>
    /** Every `stream.write` argument so far, in the order written. */
    ghost var written: seq<Chunk>

    /** Between two playback rounds: what was written is exactly the framing of what was
        dequeued, with no chunk held back in a partial buffer. */
    ghost predicate Valid()
      reads this
    {
      Segments(dequeued).rest == [] && written == Writes(Segments(dequeued).groups)
    }

    constructor ()
      ensures Valid()
      ensures queue == [] && dequeued == [] && written == []
    {
      queue := [];
      dequeued := [];
      written := [];
    }

    /** `binary_msg_handler`: enqueue the payload at the tail if it is bytes or a
        bytearray, otherwise ignore it. Nothing already queued changes. */
    method Push(msg: Payload)
      modifies this`queue
      ensures queue == if msg.NotBytes? then old(queue) else old(queue) + [msg.data]
    {
      if msg.Bytes? || msg.ByteArray? {
        queue := queue + [msg.data];
      }
    }

    /** `audio_queue.get()` on a queue that holds a chunk: remove and return the oldest. */
    method Get() returns (data: Chunk)
      requires queue != []
      modifies this`queue, this`dequeued
      ensures data == old(queue)[0] && queue == old(queue)[1..]
      ensures dequeued == old(dequeued) + [data]
    {
      data := queue[0];
      queue := queue[1..];
      dequeued := dequeued + [data];
    }

    /** The inner loop of one playback round: append chunks to a fresh buffer while it
        holds fewer than `ChunkSize` bytes, stopping early only if the queue runs dry.
        It takes exactly the `FillCount` chunks at the head of the queue. */
    method FillBuffer() returns (buffer: Chunk)
      modifies this`queue, this`dequeued
      ensures var k := FillCount(old(queue), 0);
              && queue == old(queue)[k..]
              && dequeued == old(dequeued) + old(queue)[..k]
              && buffer == Concat(old(queue)[..k])
    {
      ghost var q0, d0 := queue, dequeued;
      ghost var i := 0;
      buffer := [];
      while |buffer| < ChunkSize && queue != []
        invariant i <= |q0| && queue == q0[i..]
        invariant dequeued == d0 + q0[..i]
        invariant buffer == Concat(q0[..i])
        invariant FillCount(q0, 0) == i + FillCount(queue, |buffer|)
        decreases |queue|
      {
        FillAdvance(q0, i, |buffer|);
        Associate(d0, q0[..i], [q0[i]]);
        var data := Get();
        buffer := buffer + data;
        i := i + 1;
      }
    }

    /** One round of `audio_playback` when the queue already holds enough bytes for it to
        finish without waiting: fill a buffer, then write the whole of it. The write is
        the next frame group of the queue, and the framing invariant is kept. */
    method PlaybackStep()
      requires Valid()
      requires ChunkSize <= |Concat(queue)|
      modifies this
      ensures Valid()
      ensures var k := FillCount(old(queue), 0);
              && IsFrameGroup(old(queue)[..k])
              && queue == old(queue)[k..]
              && dequeued == old(dequeued) + old(queue)[..k]
              && written == old(written) + [Concat(old(queue)[..k])]
    {
      ghost var q0, d0 := queue, dequeued;
      var buffer := FillBuffer();
      FirstGroup(q0);
      SegmentsExtend(d0, q0[..FillCount(q0, 0)]);
      written := written + [buffer];
    }

    /** The rounds of `audio_playback` that complete without waiting: while the queue
        holds at least `ChunkSize` bytes, run a round. What is consumed here is a run of
        whole frame groups from the head of the queue, all of them written. */
    method PlayWholeRounds() returns (ghost taken: seq<Chunk>)
      requires Valid()
      modifies this
      ensures Valid()
      ensures old(queue) == taken + queue && |Concat(queue)| < ChunkSize
      ensures dequeued == old(dequeued) + taken
      ensures Segments(taken).rest == []
      ensures written == old(written) + Writes(Segments(taken).groups)
    {
      ghost var q0, d0, w0 := queue, dequeued, written;
      taken := [];
      NothingTaken();
      while ChunkSize <= |Concat(queue)|
        invariant Valid()
        invariant q0 == taken + queue
        invariant dequeued == d0 + taken
        invariant Segments(taken).rest == []
        invariant written == w0 + Writes(Segments(taken).groups)
        decreases |queue|
      {
        ghost var before := queue;
        PlaybackStep();
        ghost var g := before[..FillCount(before, 0)];
        TakeRound(taken, before);
        Associate(taken, g, queue);
        Associate(d0, taken, g);
        Associate(w0, Writes(Segments(taken).groups), [Concat(g)]);
        taken := taken + g;
      }
    }

    /** `audio_playback` run over everything now queued: whole rounds while the queue
        holds enough bytes, then the last round, which takes every remaining chunk into
        a buffer that stays short of `ChunkSize` (there the source waits for more audio).
        The device receives exactly `Frames(queue).writes`; `pending` is the partial
        buffer. */
    method Drain() returns (pending: Chunk)
      requires Valid()
      modifies this
      ensures queue == []
      ensures dequeued == old(dequeued) + old(queue)
      ensures written == old(written) + Frames(old(queue)).writes
      ensures pending == Frames(old(queue)).pending
    {
      ghost var taken := PlayWholeRounds();
      ghost var last := queue;
      LastRound(taken, last);
      pending := FillBuffer();
      assert last[..|last|] == last;
      Associate(old(dequeued), taken, last);
    }
  }
}
