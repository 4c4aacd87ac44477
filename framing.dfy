/**
 * The reference definition of how `audio_playback` (conversation.py) turns the byte
 * chunks it takes from the audio queue into device writes.
 *
 * Each round starts an empty buffer, appends dequeued chunks while the buffer holds
 * fewer than `ChunkSize` bytes, and writes the whole buffer. A chunk is never split, so
 * one write is a run of consecutive chunks whose total reaches `ChunkSize` only with its
 * last chunk, and it may be longer than `ChunkSize`.
 */
module Framing {

  /** A byte string as delivered by the network or handed to the device. */
  type Chunk = seq<bv8>

  /** CHUNK_SIZE: the byte count at which a playback buffer is flushed. */
  const ChunkSize: nat := 1024

  /** The concatenation of a sequence of sequences (bytes of chunks, chunks of groups). */
  function Concat<T>(xs: seq<seq<T>>): seq<T> {
    if xs == [] then [] else xs[0] + Concat(xs[1..])
  }

  lemma {:induction false} ConcatAppend<T>(a: seq<seq<T>>, b: seq<seq<T>>)
    ensures Concat(a + b) == Concat(a) + Concat(b)
  {
    if a == [] {
      assert a + b == b;
    } else {
      assert (a + b)[1..] == a[1..] + b;
      ConcatAppend(a[1..], b);
    }
  }

  /** The number of chunks the inner fill loop pops from `cs` when the buffer already
      holds `filled` bytes, if it stops at the threshold or when `cs` runs out. */
  function FillCount(cs: seq<Chunk>, filled: nat): (k: nat)
    ensures k <= |cs|
    ensures filled < ChunkSize && cs != [] ==> 1 <= k
    decreases |cs|
  {
    if ChunkSize <= filled || cs == [] then 0
    else FillCount(cs[1..], filled + |cs[0]|) + 1
  }

  /** Where the fill loop stops: its last chunk brings the buffer to `ChunkSize` when
      the input has enough bytes (otherwise it takes everything), and the buffer is still
      below `ChunkSize` before that last chunk. */
  lemma {:induction false} FillCountStops(cs: seq<Chunk>, filled: nat)
    ensures ChunkSize <= filled + |Concat(cs)| ==> ChunkSize <= filled + |Concat(cs[..FillCount(cs, filled)])|
    ensures filled + |Concat(cs)| < ChunkSize ==> FillCount(cs, filled) == |cs|
    ensures 0 < FillCount(cs, filled) ==> filled + |Concat(cs[..FillCount(cs, filled) - 1])| < ChunkSize
    decreases |cs|
  {
    if filled < ChunkSize && cs != [] {
      var k := FillCount(cs[1..], filled + |cs[0]|);
      FillCountStops(cs[1..], filled + |cs[0]|);
      assert cs[..k + 1][1..] == cs[1..][..k];
      assert 0 < k ==> cs[..k][1..] == cs[1..][..k - 1];
    }
  }

  /** One pass of the fill loop: popping chunk `i` appends it to the buffer, and the
      loop then has one chunk fewer to take. */
  lemma FillAdvance(cs: seq<Chunk>, i: nat, filled: nat)
    requires i < |cs| && filled < ChunkSize
    ensures cs[..i + 1] == cs[..i] + [cs[i]] && cs[i..][0] == cs[i] && cs[i..][1..] == cs[i + 1..]
    ensures Concat(cs[..i + 1]) == Concat(cs[..i]) + cs[i]
    ensures FillCount(cs[i..], filled) == 1 + FillCount(cs[i + 1..], filled + |cs[i]|)
  {
    assert cs[..i + 1] == cs[..i] + [cs[i]];
    ConcatAppend(cs[..i], [cs[i]]);
    ConcatCons(cs[i], []);
    assert cs[i..][1..] == cs[i + 1..];
  }

  /** A run of chunks that makes up one device write: non-empty, at least `ChunkSize`
      bytes in all, and below `ChunkSize` without its last chunk. */
  predicate IsFrameGroup(g: seq<Chunk>) {
    g != [] && ChunkSize <= |Concat(g)| && |Concat(g[..|g| - 1])| < ChunkSize
  }

  /** The chunks of an input, grouped as the playback loop consumes them: `groups` are
      the runs written to the device, `rest` the chunks of a buffer still being filled. */
  datatype Segmentation = Segmentation(groups: seq<seq<Chunk>>, rest: seq<Chunk>)

  /** Every run in `groups` is a frame group. */
  predicate AllFrameGroups(groups: seq<seq<Chunk>>) {
    forall i :: 0 <= i < |groups| ==> IsFrameGroup(groups[i])
  }

  /** `s` cuts `cs`, in order and without loss, into complete frame groups followed by a
      remainder shorter than `ChunkSize` bytes. */
  predicate IsSegmentationOf(s: Segmentation, cs: seq<Chunk>) {
    && Concat(s.groups) + s.rest == cs
    && AllFrameGroups(s.groups)
    && |Concat(s.rest)| < ChunkSize
  }

  /** The grouping produced by running the playback loop over `cs`. */
  function Segments(cs: seq<Chunk>): (s: Segmentation)
    ensures IsSegmentationOf(s, cs)
    decreases |cs|
  {
    if |Concat(cs)| < ChunkSize then Segmentation([], cs)
    else
      var k := FillCount(cs, 0);
      var tail := Segments(cs[k..]);
      FirstGroup(cs);
      ConsGroup(cs[..k], tail, cs);
      Segmentation([cs[..k]] + tail.groups, tail.rest)
  }

  /** One round of the playback loop on an input holding at least `ChunkSize` bytes
      takes a frame group off its front. */
  lemma FirstGroup(cs: seq<Chunk>)
    requires ChunkSize <= |Concat(cs)|
    ensures IsFrameGroup(cs[..FillCount(cs, 0)])
  {
    var k := FillCount(cs, 0);
    FillCountStops(cs, 0);
    assert cs[..k][..k - 1] == cs[..k - 1];
  }

  /** A frame group in front of a segmentation of what follows it. */
  lemma ConsGroup(g: seq<Chunk>, tail: Segmentation, cs: seq<Chunk>)
    requires IsFrameGroup(g) && |g| <= |cs| && cs[..|g|] == g
    requires IsSegmentationOf(tail, cs[|g|..])
    ensures IsSegmentationOf(Segmentation([g] + tail.groups, tail.rest), cs)
  {
    ConcatCons(g, tail.groups);
    calc {
      Concat([g] + tail.groups) + tail.rest;
      (g + Concat(tail.groups)) + tail.rest;
      g + (Concat(tail.groups) + tail.rest);
      g + cs[|g|..];
      cs;
    }
    AllFrameGroupsAppend([g], tail.groups);
  }

  lemma AllFrameGroupsAppend(a: seq<seq<Chunk>>, b: seq<seq<Chunk>>)
    requires AllFrameGroups(a) && AllFrameGroups(b)
    ensures AllFrameGroups(a + b)
  {
    forall i | 0 <= i < |a + b| ensures IsFrameGroup((a + b)[i]) {
      if i >= |a| {
        assert (a + b)[i] == b[i - |a|];
      } else {
        assert (a + b)[i] == a[i];
      }
    }
  }

  lemma ConcatCons<T>(x: seq<T>, xs: seq<seq<T>>)
    ensures Concat([x] + xs) == x + Concat(xs)
  {
    assert ([x] + xs)[1..] == xs;
  }

  /** The bytes handed to the device for each group. */
  function Writes(groups: seq<seq<Chunk>>): seq<Chunk> {
    if groups == [] then [] else [Concat(groups[0])] + Writes(groups[1..])
  }

  lemma {:induction false} WritesAt(groups: seq<seq<Chunk>>, i: nat)
    requires i < |groups|
    ensures |Writes(groups)| == |groups| && Writes(groups)[i] == Concat(groups[i])
  {
    if 0 < i {
      WritesAt(groups[1..], i - 1);
    } else {
      WritesLength(groups[1..]);
    }
  }

  lemma {:induction false} WritesLength(groups: seq<seq<Chunk>>)
    ensures |Writes(groups)| == |groups|
  {
    if groups != [] {
      WritesLength(groups[1..]);
    }
  }

  lemma {:induction false} ConcatWrites(groups: seq<seq<Chunk>>)
    ensures Concat(Writes(groups)) == Concat(Concat(groups))
  {
    if groups != [] {
      ConcatCons(Concat(groups[0]), Writes(groups[1..]));
      ConcatWrites(groups[1..]);
      ConcatAppend(groups[0], Concat(groups[1..]));
    }
  }

  /** The device writes and the pending partial buffer after playback has consumed `cs`. */
  datatype Playout = Playout(writes: seq<Chunk>, pending: Chunk)

  /** Frames(chunks): every write reaches `ChunkSize`, the pending buffer does not, and
      the writes followed by the pending bytes are exactly the input bytes in order. */
  function Frames(cs: seq<Chunk>): (f: Playout)
    ensures Concat(f.writes) + f.pending == Concat(cs)
    ensures forall i :: 0 <= i < |f.writes| ==> ChunkSize <= |f.writes[i]|
    ensures |f.pending| < ChunkSize
  {
    var s := Segments(cs);
    ConcatWrites(s.groups);
    ConcatAppend(Concat(s.groups), s.rest);
    WritesLength(s.groups);
    forall i | 0 <= i < |s.groups| ensures ChunkSize <= |Writes(s.groups)[i]| {
      WritesAt(s.groups, i);
    }
    Playout(Writes(s.groups), Concat(s.rest))
  }

  // ---------------------------------------------------------------------------
  // Segments is the only segmentation: the greedy loop has no choice to make
  // ---------------------------------------------------------------------------

  /** The fill loop stops exactly at the end of a frame group, whatever follows it. */
  lemma {:induction false} FillCountOfGroup(g: seq<Chunk>, t: seq<Chunk>, filled: nat)
    requires g != []
    requires filled + |Concat(g[..|g| - 1])| < ChunkSize <= filled + |Concat(g)|
    ensures FillCount(g + t, filled) == |g|
  {
    assert (g + t)[0] == g[0];
    assert (g + t)[1..] == g[1..] + t;
    if |g| == 1 {
      assert g[1..] == [];
    } else {
      var g' := g[1..];
      assert g[..|g| - 1] == [g[0]] + g'[..|g'| - 1];
      assert ([g[0]] + g'[..|g'| - 1])[1..] == g'[..|g'| - 1];
      FillCountOfGroup(g', t, filled + |g[0]|);
    }
  }

  /** Any cut of `cs` into frame groups and a short remainder is the one `Segments` makes. */
  lemma {:induction false} SegmentsUnique(cs: seq<Chunk>, s: Segmentation)
    requires IsSegmentationOf(s, cs)
    ensures Segments(cs) == s
    decreases |s.groups|
  {
    if s.groups == [] {
      assert Concat(s.groups) == [];
      assert cs == s.rest;
    } else {
      var g := s.groups[0];
      var tail := Segmentation(s.groups[1..], s.rest);
      var after := Concat(tail.groups) + tail.rest;
      assert s.groups == [g] + tail.groups;
      ConcatCons(g, tail.groups);
      assert cs == g + after;
      ConcatAppend(g, after);
      assert IsFrameGroup(g);
      FillCountOfGroup(g, after, 0);
      assert cs[..|g|] == g && cs[|g|..] == after;
      forall i | 0 <= i < |tail.groups| ensures IsFrameGroup(tail.groups[i]) {
        assert tail.groups[i] == s.groups[i + 1];
      }
      SegmentsUnique(after, tail);
    }
  }

  lemma {:induction false} WritesAppend(a: seq<seq<Chunk>>, b: seq<seq<Chunk>>)
    ensures Writes(a + b) == Writes(a) + Writes(b)
  {
    if a == [] {
      assert a + b == b;
    } else {
      assert (a + b)[1..] == a[1..] + b;
      WritesAppend(a[1..], b);
    }
  }

  /** Two segmentations side by side segment the concatenated input, when the first
      leaves nothing pending. */
  lemma JoinSegmentations(a: Segmentation, done: seq<Chunk>, b: Segmentation, more: seq<Chunk>)
    requires IsSegmentationOf(a, done) && a.rest == []
    requires IsSegmentationOf(b, more)
    ensures IsSegmentationOf(Segmentation(a.groups + b.groups, b.rest), done + more)
  {
    assert Concat(a.groups) == done;
    ConcatAppend(a.groups, b.groups);
    AllFrameGroupsAppend(a.groups, b.groups);
  }

  /** With no pending chunks, the frames of `done + more` are those of `done` followed
      by those of `more`: playback carries nothing across a completed write. */
  lemma SegmentsAfterWritten(done: seq<Chunk>, more: seq<Chunk>)
    requires Segments(done).rest == []
    ensures Segments(done + more) ==
      Segmentation(Segments(done).groups + Segments(more).groups, Segments(more).rest)
  {
    var a := Segments(done);
    var b := Segments(more);
    JoinSegmentations(a, done, b, more);
    SegmentsUnique(done + more, Segmentation(a.groups + b.groups, b.rest));
  }

  /** A single frame group is written in one piece. */
  lemma SegmentsOfGroup(g: seq<Chunk>)
    requires IsFrameGroup(g)
    ensures Segments(g) == Segmentation([g], [])
  {
    var one := Segmentation([g], []);
    ConcatCons(g, []);
    assert [g] + [] == [g] && g + [] == g;
    assert Concat<bv8>([]) == [];
    assert IsSegmentationOf(one, g);
    SegmentsUnique(g, one);
  }

  /** Appending one frame group to a fully written input appends exactly one write. */
  lemma SegmentsExtend(done: seq<Chunk>, g: seq<Chunk>)
    requires Segments(done).rest == []
    requires IsFrameGroup(g)
    ensures Segments(done + g) == Segmentation(Segments(done).groups + [g], [])
    ensures Writes(Segments(done + g).groups) == Writes(Segments(done).groups) + [Concat(g)]
  {
    var groups := Segments(done).groups;
    SegmentsOfGroup(g);
    SegmentsAfterWritten(done, g);
    WritesAppend(groups, [g]);
    assert Writes([g]) == [Concat(g)];
  }

  /** When every chunk received is exactly `ChunkSize` bytes, each chunk is written on
      its own, unchanged, and nothing is left pending. */
  lemma {:induction false} WholeChunksPassThrough(cs: seq<Chunk>)
    requires forall i :: 0 <= i < |cs| ==> |cs[i]| == ChunkSize
    ensures Frames(cs) == Playout(cs, [])
  {
    if cs == [] {
      assert Concat<Chunk>([]) == [];
      assert Segments(cs) == Segmentation([], []);
      assert Concat<bv8>([]) == [];
    } else {
      var c := cs[0];
      ConcatCons(c, []);
      assert [c][..0] == [];
      assert c + [] == c;
      assert IsFrameGroup([c]);
      SegmentsOfGroup([c]);
      assert cs == [c] + cs[1..];
      SegmentsAfterWritten([c], cs[1..]);
      WholeChunksPassThrough(cs[1..]);
      assert Writes([[c]] + Segments(cs[1..]).groups) == [c] + Writes(Segments(cs[1..]).groups);
    }
  }

  /** CHUNK_SIZE is not the size of every write: chunks of 1000, 1000 and 48 bytes, which
      total exactly two frames' worth, give one 2000-byte write and 48 pending bytes. */
  lemma WriteMayExceedChunkSize()
    ensures var cs := [seq(1000, _ => 0 as bv8), seq(1000, _ => 0 as bv8), seq(48, _ => 0 as bv8)];
            |Concat(cs)| == 2 * ChunkSize &&
            |Frames(cs).writes| == 1 && |Frames(cs).writes[0]| == 2000 && |Frames(cs).pending| == 48
  {
    var a, b, c := seq(1000, _ => 0 as bv8), seq(1000, _ => 0 as bv8), seq(48, _ => 0 as bv8);
    var cs := [a, b, c];
    assert cs[..2] == [a, b] && cs[2..] == [c] && cs[..2][1..] == [b] && cs[1..] == [b, c];
    assert Concat([c]) == c;
    assert Concat([b, c]) == b + c;
    assert Concat(cs) == a + b + c;
    assert Concat([a, b]) == a + b;
    var s := Segmentation([[a, b]], [c]);
    assert [[a, b]][1..] == [];
    assert [a, b][..1] == [a];
    assert IsFrameGroup([a, b]);
    assert Concat(s.groups) == [a, b];
    assert IsSegmentationOf(s, cs);
    SegmentsUnique(cs, s);
    assert Writes(s.groups) == [a + b] + Writes([]);
    assert Frames(cs) == Playout([a + b], c);
  }

  /** Exact `CHUNK_SIZE` writes do not need chunks of that size: two chunks of 512 bytes
      fill one round exactly and leave nothing pending. */
  lemma HalfChunksMakeExactWrite()
    ensures var a := seq(512, _ => 0 as bv8);
            Frames([a, a]) == Playout([a + a], []) && |(a + a)| == ChunkSize
  {
    var a := seq(512, _ => 0 as bv8);
    var cs := [a, a];
    assert cs[1..] == [a] && cs[..1] == [a];
    assert Concat([a]) == a;
    assert Concat(cs) == a + a;
    var gs: seq<seq<Chunk>> := [cs];
    var s := Segmentation(gs, []);
    assert gs[1..] == [] && Concat<Chunk>([]) == [];
    assert IsFrameGroup(cs);
    assert Concat(s.groups) == cs;
    assert IsSegmentationOf(s, cs);
    SegmentsUnique(cs, s);
    assert Writes(s.groups) == [a + a] + Writes([]);
    assert Concat<bv8>([]) == [];
  }
}
