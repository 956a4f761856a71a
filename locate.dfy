/**
 * The marker-delimited chunk engine: finding a marker, cutting a buffer into chunks that
 * start at a header marker, writing the chunks out, and splicing replacements into the gaps.
 */
module Locate {
  import opened Common
  import opened Decimal
  import opened Files

  /** "DDS ", the magic that starts every embedded texture. */
  const DDS_HEADER: seq<byte> := [0x44, 0x44, 0x53, 0x20]
  /** "POF0", the start of the container's trailing metadata. */
  const DDS_STOP_SIGN: seq<byte> := [0x50, 0x4F, 0x46, 0x30]

  /** The half-open byte range `[start, end)` of one embedded resource. */
  datatype Chunk = Chunk(start: nat, end: nat)

  /** Keep the original bytes of a chunk (`None`) or substitute the given ones. */
  type Replacement = Option<seq<byte>>

  /** `needle` is non-empty and occurs in `haystack` at offset `p`. */
  predicate OccursAt(haystack: seq<byte>, needle: seq<byte>, p: nat) {
    0 < |needle| && p + |needle| <= |haystack| && haystack[p..p + |needle|] == needle
  }

  // ---------------------------------------------------------------------------------------
  // find_chunks

  /** `windows(|needle|).position(..)` over `haystack[i..]`, as an absolute offset. */
  function WindowPosition(haystack: seq<byte>, needle: seq<byte>, i: nat): (r: Option<nat>)
    requires 0 < |needle|
    ensures r.Some? ==> i <= r.value && OccursAt(haystack, needle, r.value)
    decreases |haystack| - i
  {
    if i + |needle| > |haystack| then None
    else if haystack[i..i + |needle|] == needle then Some(i)
    else WindowPosition(haystack, needle, i + 1)
  }

  /** The window search finds the lowest occurrence, and finds none only when there is none. */
  lemma {:induction false} WindowPositionFirst(haystack: seq<byte>, needle: seq<byte>, i: nat)
    requires 0 < |needle|
    ensures var r := WindowPosition(haystack, needle, i);
      && (r.Some? ==> forall q :: i <= q < r.value ==> !OccursAt(haystack, needle, q))
      && (r.None? ==> forall q :: i <= q ==> !OccursAt(haystack, needle, q))
    decreases |haystack| - i
  {
    if i + |needle| <= |haystack| && haystack[i..i + |needle|] != needle {
      WindowPositionFirst(haystack, needle, i + 1);
    }
  }

  /** `find_chunks`: an occurrence of `needle` at or after `start`, if there is one. */
  function FindChunks(haystack: seq<byte>, needle: seq<byte>, start: nat): (r: Option<nat>)
    ensures start >= |haystack| || needle == [] ==> r == None
    ensures r.Some? ==> start <= r.value && OccursAt(haystack, needle, r.value)
  {
    if start >= |haystack| || |needle| == 0 then None
    else WindowPosition(haystack, needle, start)
  }

  /** `find_chunks` reports the lowest occurrence at or after `start`, and `None` only when there is none. */
  lemma FindChunksFirst(haystack: seq<byte>, needle: seq<byte>, start: nat)
    ensures var r := FindChunks(haystack, needle, start);
      && (r.Some? ==> forall q :: start <= q < r.value ==> !OccursAt(haystack, needle, q))
      && (r.None? ==> forall q :: start <= q ==> !OccursAt(haystack, needle, q))
  {
    if start < |haystack| && |needle| > 0 {
      WindowPositionFirst(haystack, needle, start);
    }
  }

  // ---------------------------------------------------------------------------------------
  // locate_chunks

  /**
   * Where the chunk whose header starts at `start` ends: at the first stop sign or next
   * header searched from just past its header, whichever comes first, or at the end of
   * the input when neither occurs.
   */
  function ChunkEnd(input: seq<byte>, header: seq<byte>, stopSign: seq<byte>, start: nat): (end: nat)
    requires OccursAt(input, header, start)
    ensures start + |header| <= end <= |input|
  {
    var after := start + |header|;
    match (FindChunks(input, stopSign, after), FindChunks(input, header, after))
    case (Some(stop), Some(next)) => Min(stop, next)
    case (Some(stop), None) => stop
    case (None, Some(next)) => next
    case (None, None) => |input|
  }

  /** No marker lies between a chunk's header and its end, and the end is a marker or the end of the input. */
  lemma ChunkEndFirstMarker(input: seq<byte>, header: seq<byte>, stopSign: seq<byte>, start: nat)
    requires OccursAt(input, header, start)
    ensures var end := ChunkEnd(input, header, stopSign, start);
      && (forall q :: start + |header| <= q < end ==> !OccursAt(input, stopSign, q) && !OccursAt(input, header, q))
      && (end == |input| || OccursAt(input, stopSign, end) || OccursAt(input, header, end))
  {
    FindChunksFirst(input, stopSign, start + |header|);
    FindChunksFirst(input, header, start + |header|);
  }

  /** The chunks `locate_chunks` reports from the moment its cursor stands at `pos`. */
  function ChunksFrom(input: seq<byte>, header: seq<byte>, stopSign: seq<byte>, pos: nat): seq<Chunk>
    decreases |input| - pos
  {
    match FindChunks(input, header, pos)
    case None => []
    case Some(start) =>
      var end := ChunkEnd(input, header, stopSign, start);
      [Chunk(start, end)] + ChunksFrom(input, header, stopSign, end)
  }

  /**
   * One pass of the scan loop: with the cursor at `pos` and a header at `start`, appending
   * the chunk that ends at `ChunkEnd` and moving the cursor there keeps what has been
   * collected plus what is still to come equal to the whole result.
   */
  lemma ScanStep(input: seq<byte>, header: seq<byte>, stopSign: seq<byte>, pos: nat, start: nat, before: seq<Chunk>, total: seq<Chunk>)
    requires FindChunks(input, header, pos) == Some(start)
    requires before + ChunksFrom(input, header, stopSign, pos) == total
    ensures (before + [Chunk(start, ChunkEnd(input, header, stopSign, start))]) +
      ChunksFrom(input, header, stopSign, ChunkEnd(input, header, stopSign, start)) == total
  {
    var e := ChunkEnd(input, header, stopSign, start);
    var rest := ChunksFrom(input, header, stopSign, e);
    assert ChunksFrom(input, header, stopSign, pos) == [Chunk(start, e)] + rest;
    assert (before + [Chunk(start, e)]) + rest == before + ([Chunk(start, e)] + rest);
  }

  /**
   * `locate_chunks`: scan for a header, end the chunk at the nearer of the next stop sign
   * and the next header (or at the end of the input) and resume the scan there.
   */
  method LocateChunks(input: seq<byte>, header: seq<byte>, stopSign: seq<byte>) returns (chunks: seq<Chunk>)
    ensures chunks == ChunksFrom(input, header, stopSign, 0)
  {
    chunks := [];
    ghost var total := ChunksFrom(input, header, stopSign, 0);
    var currentPos: nat := 0;
    while true
      invariant currentPos <= |input|
      invariant chunks + ChunksFrom(input, header, stopSign, currentPos) == total
      decreases |input| - currentPos
    {
      var found := FindChunks(input, header, currentPos);
      if found.None? {
        assert chunks + [] == chunks;
        break;
      }
      var start := found.value;
      ScanStep(input, header, stopSign, currentPos, start, chunks, total);
      var stopPos := FindChunks(input, stopSign, start + |header|);
      var nextHeader := FindChunks(input, header, start + |header|);
      var end: nat;
      match (stopPos, nextHeader) {
        case (Some(stop), Some(next)) => end := Min(stop, next);
        case (Some(stop), None) => end := stop;
        case (None, Some(next)) => end := next;
        case (None, None) => end := |input|;
      }
      assert end == ChunkEnd(input, header, stopSign, start);
      chunks := chunks + [Chunk(start, end)];
      if stopPos.None? && nextHeader.None? {
        assert ChunksFrom(input, header, stopSign, |input|) == [];
        assert chunks + [] == chunks;
        break;
      }
      currentPos := end;
    }
  }

  /** `locate_dds_chunks`: the chunks between "DDS " headers, cut short by "POF0". */
  method LocateDdsChunks(input: seq<byte>) returns (chunks: seq<Chunk>)
    ensures chunks == ChunksFrom(input, DDS_HEADER, DDS_STOP_SIGN, 0)
    ensures WellFormed(|input|, chunks)
  {
    chunks := LocateChunks(input, DDS_HEADER, DDS_STOP_SIGN);
    ChunksShape(input, DDS_HEADER, DDS_STOP_SIGN, 0);
  }

  /** Ranges inside a buffer of length `n`, in ascending order and pairwise disjoint. */
  predicate WellFormed(n: nat, chunks: seq<Chunk>) {
    && InBounds(n, chunks)
    && (forall i, j :: 0 <= i < j < |chunks| ==> chunks[i].end <= chunks[j].start)
  }

  /** Every chunk starts at a header occurrence at or after `pos` and holds at least the header. */
  predicate StartAtHeaders(input: seq<byte>, header: seq<byte>, pos: nat, chunks: seq<Chunk>) {
    forall i :: 0 <= i < |chunks| ==>
      && pos <= chunks[i].start
      && OccursAt(input, header, chunks[i].start)
      && chunks[i].start + |header| <= chunks[i].end <= |input|
  }

  /**
   * Every chunk ends at the first stop sign or header occurrence from just past its own
   * header, or at the end of the input when there is neither; only the last chunk can
   * reach the end of the input.
   */
  ghost predicate EndAtFirstMarker(input: seq<byte>, header: seq<byte>, stopSign: seq<byte>, chunks: seq<Chunk>) {
    forall i :: 0 <= i < |chunks| ==>
      && (forall q :: chunks[i].start + |header| <= q < chunks[i].end ==>
            !OccursAt(input, stopSign, q) && !OccursAt(input, header, q))
      && (chunks[i].end == |input| || OccursAt(input, stopSign, chunks[i].end) || OccursAt(input, header, chunks[i].end))
      && (chunks[i].end == |input| ==> i == |chunks| - 1)
  }

  /** Offset `q` lies within the header bytes of some chunk. */
  ghost predicate Covered(chunks: seq<Chunk>, header: seq<byte>, q: nat) {
    exists i :: 0 <= i < |chunks| && chunks[i].start <= q < chunks[i].start + |header|
  }

  /** Every header occurrence at or after `pos` lies within the header bytes of some chunk. */
  ghost predicate CoverHeaders(input: seq<byte>, header: seq<byte>, pos: nat, chunks: seq<Chunk>) {
    forall q :: pos <= q && OccursAt(input, header, q) ==> Covered(chunks, header, q)
  }

  /** The chunks start at header occurrences, stay inside the input, ascend and never overlap. */
  lemma ChunksShape(input: seq<byte>, header: seq<byte>, stopSign: seq<byte>, pos: nat)
    ensures StartAtHeaders(input, header, pos, ChunksFrom(input, header, stopSign, pos))
    ensures WellFormed(|input|, ChunksFrom(input, header, stopSign, pos))
  {
    ChunksAtHeaders(input, header, stopSign, pos);
    ChunksOrdered(input, header, stopSign, pos);
  }

  lemma {:induction false} ChunksAtHeaders(input: seq<byte>, header: seq<byte>, stopSign: seq<byte>, pos: nat)
    ensures StartAtHeaders(input, header, pos, ChunksFrom(input, header, stopSign, pos))
    decreases |input| - pos
  {
    match FindChunks(input, header, pos)
    case None =>
    case Some(start) =>
      var e := ChunkEnd(input, header, stopSign, start);
      ChunksAtHeaders(input, header, stopSign, e);
      var cs := ChunksFrom(input, header, stopSign, pos);
      var rest := ChunksFrom(input, header, stopSign, e);
      assert cs == [Chunk(start, e)] + rest;
      forall i | 0 <= i < |cs|
        ensures pos <= cs[i].start && OccursAt(input, header, cs[i].start)
        ensures cs[i].start + |header| <= cs[i].end <= |input|
      {
        if i > 0 {
          assert cs[i] == rest[i - 1];
        }
      }
  }

  lemma {:induction false} ChunksOrdered(input: seq<byte>, header: seq<byte>, stopSign: seq<byte>, pos: nat)
    ensures WellFormed(|input|, ChunksFrom(input, header, stopSign, pos))
    decreases |input| - pos
  {
    ChunksAtHeaders(input, header, stopSign, pos);
    match FindChunks(input, header, pos)
    case None =>
    case Some(start) =>
      var e := ChunkEnd(input, header, stopSign, start);
      ChunksOrdered(input, header, stopSign, e);
      ChunksAtHeaders(input, header, stopSign, e);
      var cs := ChunksFrom(input, header, stopSign, pos);
      var rest := ChunksFrom(input, header, stopSign, e);
      assert cs == [Chunk(start, e)] + rest;
      forall i, j | 0 <= i < j < |cs|
        ensures cs[i].end <= cs[j].start
      {
        assert cs[j] == rest[j - 1];
        if i > 0 {
          assert cs[i] == rest[i - 1];
        }
      }
  }

  /** Each chunk's end is the nearest stop sign or next header, else the end of the input. */
  lemma {:induction false} ChunkEnds(input: seq<byte>, header: seq<byte>, stopSign: seq<byte>, pos: nat)
    ensures EndAtFirstMarker(input, header, stopSign, ChunksFrom(input, header, stopSign, pos))
    decreases |input| - pos
  {
    match FindChunks(input, header, pos)
    case None =>
    case Some(start) =>
      var e := ChunkEnd(input, header, stopSign, start);
      ChunkEnds(input, header, stopSign, e);
      ChunkEndFirstMarker(input, header, stopSign, start);
      var cs := ChunksFrom(input, header, stopSign, pos);
      var rest := ChunksFrom(input, header, stopSign, e);
      assert cs == [Chunk(start, e)] + rest;
      if e == |input| {
        assert rest == [];
      }
      forall i | 0 <= i < |cs|
        ensures forall q :: cs[i].start + |header| <= q < cs[i].end ==>
          !OccursAt(input, stopSign, q) && !OccursAt(input, header, q)
        ensures cs[i].end == |input| || OccursAt(input, stopSign, cs[i].end) || OccursAt(input, header, cs[i].end)
        ensures cs[i].end == |input| ==> i == |cs| - 1
      {
        if i > 0 {
          assert cs[i] == rest[i - 1];
        }
      }
  }

  /**
   * No header occurrence is skipped: none starts before the first chunk, in a gap, inside
   * a chunk's payload or after the last chunk.
   */
  lemma {:induction false} HeadersCovered(input: seq<byte>, header: seq<byte>, stopSign: seq<byte>, pos: nat)
    ensures CoverHeaders(input, header, pos, ChunksFrom(input, header, stopSign, pos))
    decreases |input| - pos
  {
    FindChunksFirst(input, header, pos);
    match FindChunks(input, header, pos)
    case None =>
    case Some(start) =>
      var e := ChunkEnd(input, header, stopSign, start);
      HeadersCovered(input, header, stopSign, e);
      ChunkEndFirstMarker(input, header, stopSign, start);
      var cs := ChunksFrom(input, header, stopSign, pos);
      var rest := ChunksFrom(input, header, stopSign, e);
      forall q | pos <= q && OccursAt(input, header, q)
        ensures Covered(cs, header, q)
      {
        if q < start + |header| {
          assert cs[0].start <= q < cs[0].start + |header|;
        } else {
          assert e <= q;
          assert Covered(rest, header, q);
          var i :| 0 <= i < |rest| && rest[i].start <= q < rest[i].start + |header|;
          assert cs[i + 1] == rest[i];
        }
      }
  }

  /** No chunks exactly when the header does not occur at or after the cursor (an empty header never occurs). */
  lemma NoChunksIffNoHeader(input: seq<byte>, header: seq<byte>, stopSign: seq<byte>, pos: nat)
    ensures ChunksFrom(input, header, stopSign, pos) == [] <==>
      forall q :: pos <= q ==> !OccursAt(input, header, q)
  {
    FindChunksFirst(input, header, pos);
  }

  /** Shifted by `k`, `marker` agrees with itself: its suffix from `k` is also its prefix. */
  predicate SelfOverlap(marker: seq<byte>, k: nat)
    requires k <= |marker|
  {
    marker[k..] == marker[..|marker| - k]
  }

  /** No proper suffix of `marker` is also a prefix of it, so two occurrences cannot overlap. */
  predicate NoSelfOverlap(marker: seq<byte>) {
    forall k :: 0 < k < |marker| ==> !SelfOverlap(marker, k)
  }

  /** Two occurrences less than a marker's length apart make the marker overlap itself. */
  lemma ShiftedOccurrence(input: seq<byte>, marker: seq<byte>, s: nat, q: nat)
    requires OccursAt(input, marker, s) && OccursAt(input, marker, q)
    requires s < q < s + |marker|
    ensures SelfOverlap(marker, q - s)
  {
    var k := q - s;
    assert input[s..s + |marker|][k..] == input[q..s + |marker|];
    assert input[q..q + |marker|][..|marker| - k] == input[q..s + |marker|];
  }

  /** Occurrences of a marker that cannot overlap itself are at least its length apart. */
  lemma OccurrencesApart(input: seq<byte>, marker: seq<byte>, s: nat, q: nat)
    requires NoSelfOverlap(marker)
    requires OccursAt(input, marker, s) && OccursAt(input, marker, q)
    requires s <= q < s + |marker|
    ensures q == s
  {
    if q > s {
      ShiftedOccurrence(input, marker, s, q);
      assert false;
    }
  }

  lemma DdsHeaderNoSelfOverlap()
    ensures NoSelfOverlap(DDS_HEADER)
  {
    assert !SelfOverlap(DDS_HEADER, 1) by { assert DDS_HEADER[1..][1] != DDS_HEADER[..3][1]; }
    assert !SelfOverlap(DDS_HEADER, 2) by { assert DDS_HEADER[2..][0] != DDS_HEADER[..2][0]; }
    assert !SelfOverlap(DDS_HEADER, 3) by { assert DDS_HEADER[3..][0] != DDS_HEADER[..1][0]; }
  }

  /**
   * For a header that cannot overlap itself, chunks that start at headers and cover every
   * header start exactly at the header's occurrences: one chunk per header.
   */
  lemma ChunkPerHeader(input: seq<byte>, header: seq<byte>, chunks: seq<Chunk>)
    requires NoSelfOverlap(header)
    requires StartAtHeaders(input, header, 0, chunks) && CoverHeaders(input, header, 0, chunks)
    ensures forall q: nat :: OccursAt(input, header, q) <==> exists i :: 0 <= i < |chunks| && chunks[i].start == q
  {
    forall q: nat
      ensures OccursAt(input, header, q) <==> exists i :: 0 <= i < |chunks| && chunks[i].start == q
    {
      if OccursAt(input, header, q) {
        assert Covered(chunks, header, q);
        var i :| 0 <= i < |chunks| && chunks[i].start <= q < chunks[i].start + |header|;
        OccurrencesApart(input, header, chunks[i].start, q);
      }
    }
  }

  /** `locate_dds_chunks` reports one chunk per "DDS " header in the input. */
  lemma DdsChunkPerHeader(input: seq<byte>, chunks: seq<Chunk>)
    requires chunks == ChunksFrom(input, DDS_HEADER, DDS_STOP_SIGN, 0)
    ensures forall q: nat :: OccursAt(input, DDS_HEADER, q) <==> exists i :: 0 <= i < |chunks| && chunks[i].start == q
  {
    DdsHeaderNoSelfOverlap();
    ChunksShape(input, DDS_HEADER, DDS_STOP_SIGN, 0);
    HeadersCovered(input, DDS_HEADER, DDS_STOP_SIGN, 0);
    ChunkPerHeader(input, DDS_HEADER, chunks);
  }

  // ---------------------------------------------------------------------------------------
  // extract_chunks

  /** `format!("{}_{:04}{}", base, i + 1, ext)`: the name of the `i`-th (0-based) chunk file. */
  function ChunkFileName(base: string, i: nat, ext: string): string {
    base + "_" + ZeroPadded(i + 1, 4) + ext
  }

  /** A chunk file name is the base, `_`, at least four characters of number, then the extension. */
  lemma ChunkFileNameShape(base: string, i: nat, ext: string)
    ensures var name := ChunkFileName(base, i, ext);
      && |base| + 5 + |ext| <= |name|
      && name[..|base|] == base && name[|base|] == '_' && name[|name| - |ext|..] == ext
  {
    var name := ChunkFileName(base, i, ext);
    assert name == base + ("_" + ZeroPadded(i + 1, 4) + ext);
  }

  /** Different chunks get different file names, so no chunk file overwrites another. */
  lemma ChunkFileNamesDistinct(base: string, i: nat, j: nat, ext: string)
    requires ChunkFileName(base, i, ext) == ChunkFileName(base, j, ext)
    ensures i == j
  {
    var a := ZeroPadded(i + 1, 4);
    var b := ZeroPadded(j + 1, 4);
    var n := ChunkFileName(base, i, ext);
    assert |a| == |b|;
    assert a == n[|base| + 1..|base| + 1 + |a|];
    assert b == n[|base| + 1..|base| + 1 + |b|];
    ZeroPaddedInjective(i + 1, j + 1, 4);
  }

  /** Every chunk can be sliced out of a buffer of length `n` (`input[s..e]` does not panic). */
  predicate InBounds(n: nat, chunks: seq<Chunk>) {
    forall i :: 0 <= i < |chunks| ==> chunks[i].start <= chunks[i].end <= n
  }

  /**
   * The index of the first chunk, from `i` on, whose file the directory refuses to create,
   * or `n` when it accepts them all.
   */
  function FirstRefused(refused: set<string>, base: string, ext: string, n: nat, i: nat): (k: nat)
    requires i <= n
    ensures i <= k <= n
    ensures forall j :: i <= j < k ==> ChunkFileName(base, j, ext) !in refused
    ensures k < n ==> ChunkFileName(base, k, ext) in refused
    decreases n - i
  {
    if i == n then n
    else if ChunkFileName(base, i, ext) in refused then i
    else FirstRefused(refused, base, ext, n, i + 1)
  }

  /** The first refused name from `i` on is `k` when none before `k` is refused and `k` is, or is the end. */
  lemma {:induction false} FirstRefusedAt(refused: set<string>, base: string, ext: string, n: nat, i: nat, k: nat)
    requires i <= k <= n
    requires forall j :: i <= j < k ==> ChunkFileName(base, j, ext) !in refused
    requires k < n ==> ChunkFileName(base, k, ext) in refused
    ensures FirstRefused(refused, base, ext, n, i) == k
    decreases k - i
  {
    if i < k {
      FirstRefusedAt(refused, base, ext, n, i + 1, k);
    }
  }

  /** The directory after the files of the first `k` chunks have been written over `files`. */
  function Written(files: map<string, seq<byte>>, input: seq<byte>, base: string, ext: string, chunks: seq<Chunk>, k: nat): map<string, seq<byte>>
    requires k <= |chunks| && InBounds(|input|, chunks)
  {
    if k == 0 then files
    else
      var c := chunks[k - 1];
      Written(files, input, base, ext, chunks, k - 1)[ChunkFileName(base, k - 1, ext) := input[c.start..c.end]]
  }

  /** After `k` chunks have been written, the file of chunk `j < k` holds exactly its bytes. */
  lemma {:induction false} WrittenChunk(files: map<string, seq<byte>>, input: seq<byte>, base: string, ext: string, chunks: seq<Chunk>, k: nat, j: nat)
    requires k <= |chunks| && InBounds(|input|, chunks) && j < k
    ensures ChunkFileName(base, j, ext) in Written(files, input, base, ext, chunks, k)
    ensures Written(files, input, base, ext, chunks, k)[ChunkFileName(base, j, ext)] == input[chunks[j].start..chunks[j].end]
  {
    if j < k - 1 {
      WrittenChunk(files, input, base, ext, chunks, k - 1, j);
      if ChunkFileName(base, j, ext) == ChunkFileName(base, k - 1, ext) {
        ChunkFileNamesDistinct(base, j, k - 1, ext);
      }
    }
  }

  /** Writing the first `k` chunks leaves every name that is not one of their files as it was. */
  lemma {:induction false} WrittenKeeps(files: map<string, seq<byte>>, input: seq<byte>, base: string, ext: string, chunks: seq<Chunk>, k: nat, name: string)
    requires k <= |chunks| && InBounds(|input|, chunks)
    requires forall j :: 0 <= j < k ==> name != ChunkFileName(base, j, ext)
    ensures name in Written(files, input, base, ext, chunks, k) <==> name in files
    ensures name in files ==> Written(files, input, base, ext, chunks, k)[name] == files[name]
  {
    if k > 0 {
      WrittenKeeps(files, input, base, ext, chunks, k - 1, name);
      assert name != ChunkFileName(base, k - 1, ext);
    }
  }

  /**
   * After `k` chunks have been written, the file of every chunk below `k` holds exactly that
   * chunk's bytes, and every other file is as it was.
   */
  lemma WrittenFiles(files: map<string, seq<byte>>, input: seq<byte>, base: string, ext: string, chunks: seq<Chunk>, k: nat)
    requires k <= |chunks| && InBounds(|input|, chunks)
    ensures forall j :: 0 <= j < k ==>
      && ChunkFileName(base, j, ext) in Written(files, input, base, ext, chunks, k)
      && Written(files, input, base, ext, chunks, k)[ChunkFileName(base, j, ext)] == input[chunks[j].start..chunks[j].end]
    ensures forall name :: (forall j :: 0 <= j < k ==> name != ChunkFileName(base, j, ext)) ==>
      (name in Written(files, input, base, ext, chunks, k) <==> name in files) &&
      (name in files ==> Written(files, input, base, ext, chunks, k)[name] == files[name])
  {
    forall j | 0 <= j < k
      ensures ChunkFileName(base, j, ext) in Written(files, input, base, ext, chunks, k)
      ensures Written(files, input, base, ext, chunks, k)[ChunkFileName(base, j, ext)] == input[chunks[j].start..chunks[j].end]
    {
      WrittenChunk(files, input, base, ext, chunks, k, j);
    }
    forall name | forall j :: 0 <= j < k ==> name != ChunkFileName(base, j, ext)
      ensures name in Written(files, input, base, ext, chunks, k) <==> name in files
      ensures name in files ==> Written(files, input, base, ext, chunks, k)[name] == files[name]
    {
      WrittenKeeps(files, input, base, ext, chunks, k, name);
    }
  }

  /**
   * `extract_chunks`: write chunk `i` to the file `ChunkFileName(base, i, ext)` of the output
   * directory `dir`, in order, stopping at the first file that cannot be created; the files
   * written before the failure stay.
   */
  method ExtractChunks(input: seq<byte>, dir: FileSystem, base: string, ext: string, chunks: seq<Chunk>) returns (r: Result<()>)
    requires InBounds(|input|, chunks)
    modifies dir
    ensures var k := FirstRefused(dir.refused, base, ext, |chunks|, 0);
      && dir.files == Written(old(dir.files), input, base, ext, chunks, k)
      && (r.Ok? <==> k == |chunks|)
      && (r.Err? ==> r.msg == CannotCreate(ChunkFileName(base, k, ext)))
  {
    for i := 0 to |chunks|
      invariant dir.files == Written(old(dir.files), input, base, ext, chunks, i)
      invariant forall j :: 0 <= j < i ==> ChunkFileName(base, j, ext) !in dir.refused
    {
      var name := ChunkFileName(base, i, ext);
      var created := dir.Create(name);
      if created.Err? {
        FirstRefusedAt(dir.refused, base, ext, |chunks|, 0, i);
        return Err(created.msg);
      }
      var bytes := input[chunks[i].start..chunks[i].end];
      dir.Append(name, bytes);
      assert [] + bytes == bytes;
    }
    FirstRefusedAt(dir.refused, base, ext, |chunks|, 0, |chunks|);
    return Ok(());
  }

  // ---------------------------------------------------------------------------------------
  // replace_chunks

  /**
   * `replace_chunks` can slice its input with the cursor at `cursor`: there is a replacement
   * slot for every chunk, each gap `input[cursor..s]` is a valid slice, and so is every
   * chunk that is kept; the final tail `input[cursor..]` is valid too.
   */
  predicate Sliceable(n: nat, chunks: seq<Chunk>, repl: seq<Replacement>, cursor: nat)
    decreases |chunks|
  {
    if chunks == [] then cursor <= n
    else
      && 0 < |repl|
      && cursor <= chunks[0].start <= n
      && (repl[0].None? ==> chunks[0].start <= chunks[0].end <= n)
      && Sliceable(n, chunks[1..], repl[1..], chunks[0].end)
  }

  /** What `replace_chunks` writes for one chunk: its replacement, or its own bytes. */
  function Piece(input: seq<byte>, c: Chunk, r: Replacement): seq<byte>
    requires r.None? ==> c.start <= c.end <= |input|
  {
    match r
    case Some(data) => data
    case None => input[c.start..c.end]
  }

  /**
   * The bytes `replace_chunks` writes from the moment its cursor stands at `cursor`: each
   * gap verbatim, then each chunk or its replacement, then the tail after the last chunk.
   */
  function Splice(input: seq<byte>, chunks: seq<Chunk>, repl: seq<Replacement>, cursor: nat): seq<byte>
    requires Sliceable(|input|, chunks, repl, cursor)
    decreases |chunks|
  {
    if chunks == [] then input[cursor..]
    else
      input[cursor..chunks[0].start] + Piece(input, chunks[0], repl[0]) +
      Splice(input, chunks[1..], repl[1..], chunks[0].end)
  }

  /** Ascending, disjoint chunks inside the input, with the cursor before the first one. */
  predicate Fits(n: nat, chunks: seq<Chunk>, cursor: nat) {
    WellFormed(n, chunks) && cursor <= n && (chunks != [] ==> cursor <= chunks[0].start)
  }

  /** Well-formed chunks can be spliced with any long enough replacement list. */
  lemma {:induction false} FitsSliceable(n: nat, chunks: seq<Chunk>, repl: seq<Replacement>, cursor: nat)
    requires Fits(n, chunks, cursor) && |repl| >= |chunks|
    ensures Sliceable(n, chunks, repl, cursor)
    decreases |chunks|
  {
    if chunks != [] {
      var rest := chunks[1..];
      assert forall i :: 0 <= i < |rest| ==> rest[i] == chunks[i + 1];
      assert Fits(n, rest, chunks[0].end);
      FitsSliceable(n, rest, repl[1..], chunks[0].end);
    }
  }

  /** The locator's chunks can always be spliced back with a long enough replacement list. */
  lemma LocatedChunksSliceable(input: seq<byte>, header: seq<byte>, stopSign: seq<byte>, repl: seq<Replacement>)
    requires |repl| >= |ChunksFrom(input, header, stopSign, 0)|
    ensures Sliceable(|input|, ChunksFrom(input, header, stopSign, 0), repl, 0)
  {
    ChunksShape(input, header, stopSign, 0);
    FitsSliceable(|input|, ChunksFrom(input, header, stopSign, 0), repl, 0);
  }

  /** With every slot `None`, splicing gives back the input from the cursor on. */
  lemma {:induction false} SpliceKeepsAll(input: seq<byte>, chunks: seq<Chunk>, repl: seq<Replacement>, cursor: nat)
    requires Sliceable(|input|, chunks, repl, cursor)
    requires forall i :: 0 <= i < |repl| ==> repl[i].None?
    ensures Splice(input, chunks, repl, cursor) == input[cursor..]
    decreases |chunks|
  {
    if chunks != [] {
      var c := chunks[0];
      SpliceKeepsAll(input, chunks[1..], repl[1..], c.end);
      assert input[cursor..c.start] + input[c.start..c.end] + input[c.end..] == input[cursor..];
    }
  }

  /** The total length of the chunks that are replaced (an `end` below its `start` counts negatively). */
  function Removed(chunks: seq<Chunk>, repl: seq<Replacement>): int
    decreases |chunks|
  {
    if chunks == [] || repl == [] then 0
    else (if repl[0].Some? then chunks[0].end - chunks[0].start else 0) + Removed(chunks[1..], repl[1..])
  }

  /** The total length of the replacement data that is written. */
  function Inserted(chunks: seq<Chunk>, repl: seq<Replacement>): nat
    decreases |chunks|
  {
    if chunks == [] || repl == [] then 0
    else (if repl[0].Some? then |repl[0].value| else 0) + Inserted(chunks[1..], repl[1..])
  }

  /** The output length: the input from the cursor, less the replaced chunks, plus their replacements. */
  lemma {:induction false} SpliceLength(input: seq<byte>, chunks: seq<Chunk>, repl: seq<Replacement>, cursor: nat)
    requires Sliceable(|input|, chunks, repl, cursor)
    ensures |Splice(input, chunks, repl, cursor)| == |input| - cursor - Removed(chunks, repl) + Inserted(chunks, repl)
    decreases |chunks|
  {
    if chunks != [] {
      SpliceLength(input, chunks[1..], repl[1..], chunks[0].end);
    }
  }

  /**
   * One iteration of `replace_chunks` at chunk `i`: the slices it takes are valid, and
   * appending the gap and the piece to what has been written keeps what has been written
   * plus what is still to come equal to the whole output.
   */
  lemma SpliceStep(input: seq<byte>, chunks: seq<Chunk>, repl: seq<Replacement>, i: nat, cursor: nat, written: seq<byte>, total: seq<byte>)
    requires i < |chunks| && i <= |repl| && Sliceable(|input|, chunks[i..], repl[i..], cursor)
    requires written + Splice(input, chunks[i..], repl[i..], cursor) == total
    ensures i < |repl| && cursor <= chunks[i].start <= |input|
    ensures repl[i].None? ==> chunks[i].start <= chunks[i].end <= |input|
    ensures Sliceable(|input|, chunks[i + 1..], repl[i + 1..], chunks[i].end)
    ensures (written + input[cursor..chunks[i].start] + Piece(input, chunks[i], repl[i])) +
      Splice(input, chunks[i + 1..], repl[i + 1..], chunks[i].end) == total
  {
    assert chunks[i..][1..] == chunks[i + 1..];
    assert repl[i..][1..] == repl[i + 1..];
    var gap := input[cursor..chunks[i].start];
    var piece := Piece(input, chunks[i], repl[i]);
    var rest := Splice(input, chunks[i + 1..], repl[i + 1..], chunks[i].end);
    assert Splice(input, chunks[i..], repl[i..], cursor) == gap + piece + rest;
    assert written + (gap + piece + rest) == (written + gap + piece) + rest;
  }

  /** Past the last chunk, all that is left to write is the tail from the cursor. */
  lemma SpliceTail(input: seq<byte>, chunks: seq<Chunk>, repl: seq<Replacement>, cursor: nat)
    requires |chunks| <= |repl| && Sliceable(|input|, chunks[|chunks|..], repl[|chunks|..], cursor)
    ensures cursor <= |input|
    ensures Splice(input, chunks[|chunks|..], repl[|chunks|..], cursor) == input[cursor..]
  {
    assert chunks[|chunks|..] == [];
  }

  /**
   * Writing a file twice leaves only the second contents: this folds the `Create` and every
   * `Append` so far of `ReplaceChunks` into a single update of the file map.
   */
  lemma Overwrite(files: map<string, seq<byte>>, path: string, first: seq<byte>, second: seq<byte>)
    ensures files[path := first][path := second] == files[path := second]
  {
  }

  function LengthMismatch(replacements: nat, chunks: nat): string {
    "Replacements length (" + Digits(replacements) + ") must be at least equal to chunks length (" + Digits(chunks) + ")"
  }

  /**
   * `replace_chunks`: refuse a replacement list shorter than the chunk list before touching
   * the output, then create `outPath` and stream the spliced bytes into it.
   */
  method ReplaceChunks(input: seq<byte>, fs: FileSystem, outPath: string, chunks: seq<Chunk>, replacements: seq<Replacement>)
    returns (r: Result<()>)
    requires |replacements| >= |chunks| ==> Sliceable(|input|, chunks, replacements, 0)
    modifies fs
    ensures |replacements| < |chunks| ==>
      r == Err(LengthMismatch(|replacements|, |chunks|)) && fs.files == old(fs.files)
    ensures |replacements| >= |chunks| && outPath in fs.refused ==>
      r == Err(CannotCreate(outPath)) && fs.files == old(fs.files)
    ensures |replacements| >= |chunks| && outPath !in fs.refused ==>
      r == Ok(()) && fs.files == old(fs.files)[outPath := Splice(input, chunks, replacements, 0)]
  {
    if |replacements| < |chunks| {
      return Err(LengthMismatch(|replacements|, |chunks|));
    }
    var created := fs.Create(outPath);
    if created.Err? {
      return Err(created.msg);
    }
    var cursor: nat := 0;
    ghost var total := Splice(input, chunks, replacements, 0);
    ghost var written: seq<byte> := [];
    for i := 0 to |chunks|
      invariant fs.files == old(fs.files)[outPath := written]
      invariant Sliceable(|input|, chunks[i..], replacements[i..], cursor)
      invariant written + Splice(input, chunks[i..], replacements[i..], cursor) == total
    {
      var s, e := chunks[i].start, chunks[i].end;
      SpliceStep(input, chunks, replacements, i, cursor, written, total);
      var piece := Piece(input, chunks[i], replacements[i]);
      fs.Append(outPath, input[cursor..s]);
      Overwrite(old(fs.files), outPath, written, written + input[cursor..s]);
      written := written + input[cursor..s];
      match replacements[i] {
        case Some(data) => fs.Append(outPath, data);
        case None => fs.Append(outPath, input[s..e]);
      }
      Overwrite(old(fs.files), outPath, written, written + piece);
      written := written + piece;
      cursor := e;
    }
    SpliceTail(input, chunks, replacements, cursor);
    fs.Append(outPath, input[cursor..]);
    Overwrite(old(fs.files), outPath, written, written + input[cursor..]);
    return Ok(());
  }
}
