/** Subtitle chunking of a word-level transcript (Editor.generate_subtitles).

    The transcriber yields segments, each an ordered list of timed words.
    Words are buffered per segment; a full buffer is flushed into one chunk
    (first word's start, last word's end, word texts joined with no
    separator), and whatever is left at the end of a segment is flushed too. */
module Subtitles {

  /** A timed piece of text, `(start, end, text)`: a transcribed word or a subtitle chunk. */
  datatype Timed = Timed(start: real, end: real, text: string)

  type Pos = n: int | n >= 1 witness 1

  function Min(a: int, b: int): int { if a <= b then a else b }

  /** The buffer length at which a flush happens. `len(buffer) >= chunk_size`
      already holds after the first append when chunk_size <= 1. */
  function FlushSize(chunkSize: int): Pos {
    if chunkSize < 1 then 1 else chunkSize
  }

  /** `"".join(t[2] for t in ws)`: the texts in order, nothing in between. */
  function JoinTexts(ws: seq<Timed>): string {
    if ws == [] then "" else JoinTexts(ws[..|ws| - 1]) + ws[|ws| - 1].text
  }

  /** The chunk a flushed buffer becomes. */
  function MakeChunk(buffer: seq<Timed>): Timed
    requires buffer != []
  {
    Timed(buffer[0].start, buffer[|buffer| - 1].end, JoinTexts(buffer))
  }

  /** Reference definition of the chunks of one segment: full groups of `n`
      words from the front, then one smaller leftover group if any words remain. */
  function SegmentChunks(ws: seq<Timed>, n: Pos): seq<Timed>
    decreases |ws|
  {
    if ws == [] then []
    else if |ws| < n then [MakeChunk(ws)]
    else [MakeChunk(ws[..n])] + SegmentChunks(ws[n..], n)
  }

  /** Reference definition of the whole output: each segment's chunks, segment after segment. */
  function Subtitles(segments: seq<seq<Timed>>, chunkSize: int): seq<Timed> {
    if segments == [] then []
    else Subtitles(segments[..|segments| - 1], chunkSize)
         + SegmentChunks(segments[|segments| - 1], FlushSize(chunkSize))
  }

  /** All words of all segments, in input order. */
  function Flatten(segments: seq<seq<Timed>>): seq<Timed> {
    if segments == [] then [] else Flatten(segments[..|segments| - 1]) + segments[|segments| - 1]
  }

  /** Chunk number `k` of segment `ws` is made of the words `ws[k*n .. min((k+1)*n, |ws|)]`. */
  predicate IsChunkOf(c: Timed, ws: seq<Timed>, n: Pos, k: int) {
    0 <= k && k * n < |ws| && c == MakeChunk(ws[k * n .. Min((k + 1) * n, |ws|)])
  }

  lemma {:induction false} JoinTextsAppend(a: seq<Timed>, b: seq<Timed>)
    ensures JoinTexts(a + b) == JoinTexts(a) + JoinTexts(b)
    decreases |b|
  {
    if b == [] {
      assert a + b == a;
    } else {
      assert (a + b)[..|a + b| - 1] == a + b[..|b| - 1];
      JoinTextsAppend(a, b[..|b| - 1]);
    }
  }

  /** How many chunks one segment yields: ceil(|ws| / n), so an empty segment
      yields none and a non-empty one at least one. */
  lemma {:induction false} SegmentChunksCount(ws: seq<Timed>, n: Pos)
    ensures (|SegmentChunks(ws, n)| - 1) * n < |ws| <= |SegmentChunks(ws, n)| * n
    decreases |ws|
  {
    if |ws| >= n {
      var m := |SegmentChunks(ws[n..], n)|;
      SegmentChunksCount(ws[n..], n);
      assert |SegmentChunks(ws, n)| == m + 1;
      Distribute(m, n);
    }
  }

  lemma Distribute(m: int, n: int)
    ensures (m + 1) * n == m * n + n && (m + 1 - 1) * n == m * n
  {
  }

  lemma Product(k: nat, n: Pos)
    ensures k * n >= 0
  {
  }

  lemma DropSlice(ws: seq<Timed>, n: nat, lo: int, hi: int)
    requires n <= |ws| && 0 <= lo <= hi <= |ws| - n
    ensures ws[n..][lo..hi] == ws[lo + n .. hi + n]
  {
  }

  /** Chunk k of what follows the first n words is chunk k + 1 of the whole. */
  lemma IsChunkOfShift(c: Timed, ws: seq<Timed>, n: Pos, k: nat)
    requires n <= |ws| && IsChunkOf(c, ws[n..], n, k)
    ensures IsChunkOf(c, ws, n, k + 1)
  {
    Distribute(k, n);
    Distribute(k + 1, n);
    Product(k, n);
    DropSlice(ws, n, k * n, Min((k + 1) * n, |ws| - n));
  }

  /** Which words chunk k of a segment is made of: words k*n up to (k+1)*n,
      cut at the end of the segment. With SegmentChunksCount, every chunk but
      the last holds exactly n words and the last between 1 and n. */
  lemma MulLe(a: nat, b: nat, n: Pos)
    requires a <= b
    ensures a * n <= b * n
  {
  }

  /** Every chunk of a segment but the last holds exactly n words, and the
      last holds at least one. */
  lemma SegmentChunkSize(ws: seq<Timed>, n: Pos, k: nat)
    requires k < |SegmentChunks(ws, n)|
    ensures k * n < |ws|
    ensures k + 1 < |SegmentChunks(ws, n)| ==> (k + 1) * n <= |ws|
  {
    var c := |SegmentChunks(ws, n)|;
    SegmentChunksCount(ws, n);
    MulLe(k, c - 1, n);
    if k + 1 < c {
      MulLe(k + 1, c - 1, n);
    }
  }

  lemma {:induction false} SegmentChunkAt(ws: seq<Timed>, n: Pos, k: nat)
    requires k < |SegmentChunks(ws, n)|
    ensures IsChunkOf(SegmentChunks(ws, n)[k], ws, n, k)
    decreases k
  {
    if k == 0 {
      assert ws[0 * n .. Min((0 + 1) * n, |ws|)] == if |ws| < n then ws else ws[..n];
    } else {
      var rest := SegmentChunks(ws[n..], n);
      assert |ws| >= n && SegmentChunks(ws, n) == [MakeChunk(ws[..n])] + rest;
      SegmentChunkAt(ws[n..], n, k - 1);
      IsChunkOfShift(rest[k - 1], ws, n, k - 1);
    }
  }

  /** Chunking one segment loses and reorders nothing: the chunk texts,
      concatenated, are the word texts concatenated. */
  lemma {:induction false} SegmentChunksText(ws: seq<Timed>, n: Pos)
    ensures JoinTexts(SegmentChunks(ws, n)) == JoinTexts(ws)
    decreases |ws|
  {
    if ws == [] {
    } else if |ws| < n {
      JoinSingle(MakeChunk(ws));
    } else {
      var c := MakeChunk(ws[..n]);
      var rest := SegmentChunks(ws[n..], n);
      assert SegmentChunks(ws, n) == [c] + rest;
      calc {
        JoinTexts([c] + rest);
        == { JoinTextsAppend([c], rest); }
        JoinTexts([c]) + JoinTexts(rest);
        == { JoinSingle(c); SegmentChunksText(ws[n..], n); }
        JoinTexts(ws[..n]) + JoinTexts(ws[n..]);
        == { JoinTextsAppend(ws[..n], ws[n..]); assert ws[..n] + ws[n..] == ws; }
        JoinTexts(ws);
      }
    }
  }

  lemma JoinSingle(c: Timed)
    ensures JoinTexts([c]) == c.text
  {
    assert [c][..0] == [];
  }

  /** Nothing is lost or reordered: the chunk texts of the whole output, in
      order, concatenate to the word texts of all segments, in input order. */
  lemma {:induction false} SubtitlesText(segments: seq<seq<Timed>>, chunkSize: int)
    ensures JoinTexts(Subtitles(segments, chunkSize)) == JoinTexts(Flatten(segments))
    decreases |segments|
  {
    if segments != [] {
      var init, last := segments[..|segments| - 1], segments[|segments| - 1];
      SubtitlesText(init, chunkSize);
      SegmentChunksText(last, FlushSize(chunkSize));
      JoinTextsAppend(Subtitles(init, chunkSize), SegmentChunks(last, FlushSize(chunkSize)));
      JoinTextsAppend(Flatten(init), last);
    }
  }

  /** No chunk spans two segments: every output chunk is chunk number k of a
      single segment i, made of consecutive words of that segment only. */
  lemma {:induction false} SubtitlesOrigin(segments: seq<seq<Timed>>, chunkSize: int, j: int)
    requires 0 <= j < |Subtitles(segments, chunkSize)|
    ensures exists i, k ::
      0 <= i < |segments| && IsChunkOf(Subtitles(segments, chunkSize)[j], segments[i], FlushSize(chunkSize), k)
    decreases |segments|
  {
    var n := FlushSize(chunkSize);
    var init, last := segments[..|segments| - 1], segments[|segments| - 1];
    var before := Subtitles(init, chunkSize);
    if j < |before| {
      SubtitlesOrigin(init, chunkSize, j);
      var i, k :| 0 <= i < |init| && IsChunkOf(before[j], init[i], n, k);
      assert init[i] == segments[i];
      assert IsChunkOf(Subtitles(segments, chunkSize)[j], segments[i], n, k);
    } else {
      var k := j - |before|;
      SegmentChunkAt(last, n, k);
      assert IsChunkOf(Subtitles(segments, chunkSize)[j], segments[|segments| - 1], n, k);
    }
  }

  /** `len` words fill a whole number of groups of `n`. */
  predicate WholeGroups(len: nat, n: Pos)
    decreases len
  {
    len == 0 || (len >= n && WholeGroups(len - n, n))
  }

  /** Splitting a segment after a whole number of full groups splits its chunks there too. */
  lemma {:induction false} SegmentChunksAppend(a: seq<Timed>, b: seq<Timed>, n: Pos)
    requires WholeGroups(|a|, n)
    ensures SegmentChunks(a + b, n) == SegmentChunks(a, n) + SegmentChunks(b, n)
    decreases |a|
  {
    if a == [] {
      assert a + b == b;
    } else {
      assert |a| >= n;
      assert (a + b)[..n] == a[..n];
      assert (a + b)[n..] == a[n..] + b;
      SegmentChunksAppend(a[n..], b, n);
    }
  }

  lemma SegmentChunksFull(buffer: seq<Timed>, n: Pos)
    requires |buffer| == n
    ensures SegmentChunks(buffer, n) == [MakeChunk(buffer)]
  {
    assert buffer[..n] == buffer;
    assert SegmentChunks(buffer[n..], n) == [];
  }

  lemma SegmentChunksLeftover(buffer: seq<Timed>, n: Pos)
    requires |buffer| < n
    ensures SegmentChunks(buffer, n) == if buffer == [] then [] else [MakeChunk(buffer)]
  {
  }

  /** A buffer flushed when it reaches n words adds exactly one chunk. */
  lemma FlushFull(segment: seq<Timed>, flushed: nat, upto: nat, n: Pos)
    requires WholeGroups(flushed, n) && flushed + n == upto <= |segment|
    ensures WholeGroups(upto, n)
    ensures SegmentChunks(segment[..upto], n)
      == SegmentChunks(segment[..flushed], n) + [MakeChunk(segment[flushed..upto])]
  {
    var buffer := segment[flushed..upto];
    SegmentChunksAppend(segment[..flushed], buffer, n);
    assert segment[..flushed] + buffer == segment[..upto];
    SegmentChunksFull(buffer, n);
  }

  /** One turn of the word loop keeps the loop's invariant: after the word is
      buffered, either the buffer is full and flushing it extends the chunks
      to the reference chunks of the words so far, or it is still short. */
  lemma WordStep(segment: seq<Timed>, chunkSize: int, flushed: nat, j: nat,
                 buffer: seq<Timed>, chunks: seq<Timed>)
    requires flushed <= j < |segment| && WholeGroups(flushed, FlushSize(chunkSize))
    requires buffer == segment[flushed..j] && |buffer| < FlushSize(chunkSize)
    requires chunks == SegmentChunks(segment[..flushed], FlushSize(chunkSize))
    ensures var b := buffer + [segment[j]];
      if |b| >= chunkSize then
        WholeGroups(j + 1, FlushSize(chunkSize))
        && chunks + [MakeChunk(b)] == SegmentChunks(segment[..j + 1], FlushSize(chunkSize))
      else
        b == segment[flushed..j + 1] && |b| < FlushSize(chunkSize)
  {
    var n := FlushSize(chunkSize);
    var b := buffer + [segment[j]];
    assert b == segment[flushed..j + 1];
    if |b| >= chunkSize {
      FlushFull(segment, flushed, j + 1, n);
    }
  }

  /** After the word loop, flushing a non-empty leftover completes the
      reference chunks of the segment. */
  lemma LeftoverStep(segment: seq<Timed>, chunkSize: int, flushed: nat,
                     buffer: seq<Timed>, chunks: seq<Timed>)
    requires flushed <= |segment| && WholeGroups(flushed, FlushSize(chunkSize))
    requires buffer == segment[flushed..|segment|] && |buffer| < FlushSize(chunkSize)
    requires chunks == SegmentChunks(segment[..flushed], FlushSize(chunkSize))
    ensures (if |buffer| != 0 then chunks + [MakeChunk(buffer)] else chunks)
      == SegmentChunks(segment, FlushSize(chunkSize))
  {
    var n := FlushSize(chunkSize);
    SegmentChunksAppend(segment[..flushed], buffer, n);
    assert segment[..flushed] + buffer == segment;
    SegmentChunksLeftover(buffer, n);
  }

  /** The body of the segment loop of Editor.generate_subtitles: buffer the
      words of one segment, flush every full buffer, then flush the leftover. */
  method ChunkSegment(segment: seq<Timed>, chunkSize: int) returns (chunks: seq<Timed>)
    ensures chunks == SegmentChunks(segment, FlushSize(chunkSize))
  {
    ghost var n := FlushSize(chunkSize);
    chunks := [];
    var buffer: seq<Timed> := [];
    ghost var flushed: nat := 0;
    var j := 0;
    while j < |segment|
      invariant 0 <= flushed <= j <= |segment|
      invariant WholeGroups(flushed, n)
      invariant buffer == segment[flushed..j] && |buffer| < n
      invariant chunks == SegmentChunks(segment[..flushed], n)
    {
      WordStep(segment, chunkSize, flushed, j, buffer, chunks);
      buffer := buffer + [segment[j]];
      if |buffer| >= chunkSize {
        chunks := chunks + [MakeChunk(buffer)];
        buffer := [];
        flushed := j + 1;
      }
      j := j + 1;
    }
    LeftoverStep(segment, chunkSize, flushed, buffer, chunks);
    if |buffer| != 0 {
      chunks := chunks + [MakeChunk(buffer)];
    }
  }

  /** Editor.generate_subtitles, with the transcriber's segments passed in. */
  method GenerateSubtitles(segments: seq<seq<Timed>>, chunkSize: int) returns (chunks: seq<Timed>)
    ensures chunks == Subtitles(segments, chunkSize)
  {
    chunks := [];
    var i := 0;
    while i < |segments|
      invariant 0 <= i <= |segments|
      invariant chunks == Subtitles(segments[..i], chunkSize)
    {
      var segmentChunks := ChunkSegment(segments[i], chunkSize);
      chunks := chunks + segmentChunks;
      assert segments[..i + 1][..i] == segments[..i];
      i := i + 1;
    }
    assert segments[..i] == segments;
  }
}
