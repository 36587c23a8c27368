/** ParallelSorter: sorts array[start, end) of an int array by splitting
    it into numChunks contiguous chunks, sorting each chunk, finding the
    runs of consecutive chunks whose value ranges overlap, and sorting a
    window around each such run with the skip argument of the sorter.

    The source runs the chunk sorts and the overlap sorts as the shards of
    two split tasks on an executor; the model runs the sequential equivalent
    the source documents: every sortChunk in shard order, then
    updateOverlaps (the finish of the first task), then every sortOverlap in
    shard order. The comparator is the natural order of int. */
module ParallelSorting {
  import opened Sorting
  import InsertionMethod
  import BubbleMethod

  /** The two ISorterMethod implementations a sorter can be given. */
  datatype SorterMethod = Insertion | Bubble

  /** A chunk: its bounds and, once it has been sorted, its first and last
      element. */
  datatype Chunk = Chunk(start: int, end: int, first: int, last: int)

  /** A run of overlapping chunks firstChunkID .. lastChunkID. */
  datatype Overlap = Overlap(enabled: bool, firstChunkID: int, lastChunkID: int)

  /** What sorter.sort(array, start, end, comparator, skip) leaves. */
  function SorterResult(m: SorterMethod, s: seq<int>, start: int, end: int, skip: int): seq<int>
    requires 0 <= start && 0 <= skip && end <= |s|
  {
    match m
    case Insertion => InsertionMethod.SortedRange(s, start, end, skip, Identity)
    case Bubble => BubbleMethod.Bubbled(s, start, end, skip, Identity)
  }

  /** Both sorters permute the array; the insertion sort also leaves every
      cell outside [start, end) alone. */
  lemma SorterResultPermutes(m: SorterMethod, s: seq<int>, start: int, end: int, skip: int)
    requires 0 <= start && 0 <= skip && end <= |s|
    ensures |SorterResult(m, s, start, end, skip)| == |s|
    ensures multiset(SorterResult(m, s, start, end, skip)) == multiset(s)
    ensures m == Insertion ==>
      forall t :: 0 <= t < |s| && !(start <= t < end) ==> SorterResult(m, s, start, end, skip)[t] == s[t]
  {
    match m
    case Insertion =>
      if start <= end {
        InsertionMethod.SortedRangePermutes(s, start, end, skip, Identity);
        var r := InsertionMethod.SortedRange(s, start, end, skip, Identity);
        assert s == s[..start] + s[start..end] + s[end..];
        assert r == r[..start] + r[start..end] + r[end..];
        forall t | 0 <= t < |s| && !(start <= t < end)
          ensures r[t] == s[t]
        {
          if t < start {
            assert r[..start][t] == s[..start][t];
          } else {
            assert r[end..][t - end] == s[end..][t - end];
          }
        }
      }
    case Bubble =>
      BubbleMethod.BubbledPermutes(s, start, end, skip, Identity);
  }

  // ---------------------------------------------------------------------
  // Chunks
  // ---------------------------------------------------------------------

  /** The chunks lie end to end over [lo, hi), and none is empty. */
  ghost predicate ChunksCover(cs: seq<Chunk>, lo: int, hi: int)
  {
    |cs| >= 1 && cs[0].start == lo && cs[|cs| - 1].end == hi
    && (forall c :: 0 <= c < |cs| - 1 ==> cs[c].end == cs[c + 1].start)
    && (forall c :: 0 <= c < |cs| ==> lo <= cs[c].start < cs[c].end <= hi)
  }

  /** The chunks lie end to end over [lo, hi); some may be empty. */
  ghost predicate ChunksTile(cs: seq<Chunk>, lo: int, hi: int)
  {
    |cs| >= 1 && cs[0].start == lo && cs[|cs| - 1].end == hi
    && (forall c :: 0 <= c < |cs| - 1 ==> cs[c].end == cs[c + 1].start)
    && (forall c :: 0 <= c < |cs| ==> lo <= cs[c].start <= cs[c].end <= hi)
  }

  /** The same chunk bounds; first and last may differ. */
  ghost predicate SameBounds(cs: seq<Chunk>, cs': seq<Chunk>)
  {
    |cs| == |cs'| && forall c :: 0 <= c < |cs| ==> cs[c].start == cs'[c].start && cs[c].end == cs'[c].end
  }

  /** A chunk once sortChunk has run on it: its cells are sorted and
      first and last hold its first and last element. */
  ghost predicate ChunkSettled(ch: Chunk, s: seq<int>)
  {
    0 <= ch.start < ch.end <= |s| && ch.first == s[ch.start] && ch.last == s[ch.end - 1]
    && SortedBy(s[ch.start..ch.end], Identity)
  }

  /** Every chunk is settled. */
  ghost predicate ChunksSettled(cs: seq<Chunk>, s: seq<int>)
  {
    forall c :: 0 <= c < |cs| ==> ChunkSettled(cs[c], s)
  }

  /** A settled chunk stays settled when no cell of it changes. */
  lemma ChunkKept(ch: Chunk, s: seq<int>, s': seq<int>, a: int)
    requires ChunkSettled(ch, s) && ch.end <= a <= |s| == |s'|
    requires forall t :: 0 <= t < a ==> s'[t] == s[t]
    ensures ChunkSettled(ch, s')
  {
    assert s'[ch.start..ch.end] == s[ch.start..ch.end];
  }

  /** Contiguous chunks are ordered: an earlier chunk ends at or before a
      later one starts. */
  lemma {:induction false} ChunksOrdered(cs: seq<Chunk>, lo: int, hi: int, c: int, d: int)
    requires ChunksCover(cs, lo, hi)
    requires 0 <= c < d < |cs|
    ensures cs[c].end <= cs[d].start
    decreases d - c
  {
    if c + 1 < d {
      ChunksOrdered(cs, lo, hi, c + 1, d);
      assert cs[c].end == cs[c + 1].start;
    }
  }

  /** One shard of the chunk-sorting task with the insertion sorter: once
      chunk i is sorted and its first and last element recorded, chunks
      0 .. i are settled, and nothing outside [lo, hi) moved. */
  lemma ChunkSortStep(cs0: seq<Chunk>, cs: seq<Chunk>, s: seq<int>, cs': seq<Chunk>, s': seq<int>, lo: int, hi: int, i: int)
    requires ChunksCover(cs0, lo, hi) && SameBounds(cs, cs0) && 0 <= i < |cs| && 0 <= lo && hi <= |s|
    requires ChunksSettled(cs[..i], s)
    requires s' == SorterResult(Insertion, s, cs[i].start, cs[i].end, 0) && |s'| == |s|
    requires |cs'| == |cs| && forall c :: 0 <= c < |cs| && c != i ==> cs'[c] == cs[c]
    requires cs'[i] == cs[i].(first := s'[cs[i].start], last := s'[cs[i].end - 1])
    ensures ChunksSettled(cs'[..i + 1], s')
    ensures forall t :: 0 <= t < |s| && !(lo <= t < hi) ==> s'[t] == s[t]
  {
    var a, b := cs[i].start, cs[i].end;
    SorterResultPermutes(Insertion, s, a, b, 0);
    InsertionMethod.SortWithoutSkipSorts(s, a, b, Identity);
    var p := cs'[..i + 1];
    forall c | 0 <= c < |p|
      ensures ChunkSettled(p[c], s')
    {
      assert p[c] == cs'[c];
      if c < i {
        ChunksOrdered(cs0, lo, hi, c, i);
        assert cs[..i][c] == cs[c];
        ChunkKept(cs[c], s, s', a);
      }
    }
  }

  /** Chunk ch of s holds the elements it held in s0, in some order. */
  ghost predicate ChunkPermuted(ch: Chunk, s0: seq<int>, s: seq<int>)
  {
    0 <= ch.start <= ch.end <= |s| == |s0| && multiset(s[ch.start..ch.end]) == multiset(s0[ch.start..ch.end])
  }

  /** Chunk ch of s holds exactly what it held in s0. */
  ghost predicate ChunkUntouched(ch: Chunk, s0: seq<int>, s: seq<int>)
  {
    0 <= ch.start <= ch.end <= |s| == |s0| && s[ch.start..ch.end] == s0[ch.start..ch.end]
  }

  /** One shard of the chunk-sorting task with the insertion sorter:
      sorting chunk i permutes that chunk and leaves every other chunk as
      it was, so chunks 0 .. i hold their own elements and the later ones
      are untouched. */
  lemma ChunkPermuteStep(cs: seq<Chunk>, s0: seq<int>, s: seq<int>, s': seq<int>, lo: int, hi: int, i: int)
    requires ChunksCover(cs, lo, hi) && 0 <= lo && hi <= |s| == |s0| && 0 <= i < |cs|
    requires forall c :: 0 <= c < i ==> ChunkPermuted(cs[c], s0, s)
    requires forall c :: i <= c < |cs| ==> ChunkUntouched(cs[c], s0, s)
    requires s' == SorterResult(Insertion, s, cs[i].start, cs[i].end, 0)
    ensures forall c :: 0 <= c <= i ==> ChunkPermuted(cs[c], s0, s')
    ensures forall c :: i < c < |cs| ==> ChunkUntouched(cs[c], s0, s')
  {
    var a, b := cs[i].start, cs[i].end;
    InsertionMethod.SortedRangePermutes(s, a, b, 0, Identity);
    assert ChunkUntouched(cs[i], s0, s);
    forall c | 0 <= c < i
      ensures ChunkPermuted(cs[c], s0, s')
    {
      ChunksOrdered(cs, lo, hi, c, i);
      assert ChunkPermuted(cs[c], s0, s);
      assert s'[cs[c].start..cs[c].end] == s'[..a][cs[c].start..cs[c].end];
      assert s[cs[c].start..cs[c].end] == s[..a][cs[c].start..cs[c].end];
    }
    forall c | i < c < |cs|
      ensures ChunkUntouched(cs[c], s0, s')
    {
      ChunksOrdered(cs, lo, hi, i, c);
      assert ChunkUntouched(cs[c], s0, s);
      assert s'[cs[c].start..cs[c].end] == s'[b..][cs[c].start - b..cs[c].end - b];
      assert s[cs[c].start..cs[c].end] == s[b..][cs[c].start - b..cs[c].end - b];
    }
  }

  /** The chunk-sorting task with the insertion sorter after its first
      n shards, on the array s (s0 before the task) and the chunks cs
      (cs0 before): chunks 0 .. n-1 are settled and hold their own
      elements, the later ones are untouched, and nothing outside
      [lo, hi) moved. */
  ghost predicate ShardsDone(cs0: seq<Chunk>, cs: seq<Chunk>, s0: seq<int>, s: seq<int>, lo: int, hi: int, n: int)
  {
    0 <= n <= |cs| && |s| == |s0| && ChunksSettled(cs[..n], s)
    && (forall t :: 0 <= t < |s0| && !(lo <= t < hi) ==> s[t] == s0[t])
    && (forall c :: 0 <= c < n && c < |cs0| ==> ChunkPermuted(cs0[c], s0, s))
    && (forall c :: n <= c < |cs0| ==> ChunkUntouched(cs0[c], s0, s))
  }

  /** Once every shard has run, every chunk is settled and holds its own
      elements. */
  lemma AllShardsDone(cs0: seq<Chunk>, cs: seq<Chunk>, s0: seq<int>, s: seq<int>, lo: int, hi: int)
    requires ShardsDone(cs0, cs, s0, s, lo, hi, |cs|) && SameBounds(cs, cs0)
    ensures ChunksSettled(cs, s)
    ensures forall t :: 0 <= t < |s0| && !(lo <= t < hi) ==> s[t] == s0[t]
    ensures forall c :: 0 <= c < |cs| ==>
      0 <= cs[c].start <= cs[c].end <= |s| && multiset(s[cs[c].start..cs[c].end]) == multiset(s0[cs[c].start..cs[c].end])
  {
    assert cs == cs[..|cs|];
    forall c | 0 <= c < |cs|
      ensures 0 <= cs[c].start <= cs[c].end <= |s| && multiset(s[cs[c].start..cs[c].end]) == multiset(s0[cs[c].start..cs[c].end])
    {
      assert ChunkPermuted(cs0[c], s0, s);
    }
  }

  /** One shard of the chunk-sorting task with the insertion sorter, on
      the array and chunks before (s, cs) and after (s', cs') it. */
  lemma InsertionShard(cs0: seq<Chunk>, cs: seq<Chunk>, s0: seq<int>, s: seq<int>, cs': seq<Chunk>, s': seq<int>, lo: int, hi: int, i: int)
    requires ChunksCover(cs0, lo, hi) && SameBounds(cs, cs0) && 0 <= i < |cs| && 0 <= lo && hi <= |s|
    requires ShardsDone(cs0, cs, s0, s, lo, hi, i)
    requires s' == SorterResult(Insertion, s, cs0[i].start, cs0[i].end, 0) && |s'| == |s|
    requires |cs'| == |cs| && forall c :: 0 <= c < |cs| && c != i ==> cs'[c] == cs[c]
    requires cs'[i] == cs[i].(first := s'[cs[i].start], last := s'[cs[i].end - 1])
    ensures ShardsDone(cs0, cs', s0, s', lo, hi, i + 1)
  {
    ChunkSortStep(cs0, cs, s, cs', s', lo, hi, i);
    ChunkPermuteStep(cs0, s0, s, s', lo, hi, i);
  }

  /** The arithmetic of the chunk bounds: with q = length / n >= 1 the
      chunk [start + q * c, start + q * (c + 1)) lies inside the range, and
      the last chunk, stretched to end, is not empty. */
  lemma ChunkArithmetic(start: int, length: int, n: int, c: int)
    requires 2 <= n <= length && 0 <= c < n
    ensures 1 <= length / n
    ensures start <= start + length / n * c < start + length / n * (c + 1) <= start + length
    ensures start + length / n * (n - 1) < start + length
  {
    var q := length / n;
    var r := length % n;
    assert length == q * n + r && 0 <= r < n;
    QuotientPositive(length, n);
    MulMono(q, c + 1, n);
    MulMono(q, c, c + 1);
    assert q * (c + 1) == q * c + q;
    assert q * (n - 1) == q * n - q;
  }

  /** The chunk bounds sort lays out cover [start, end). */
  lemma LayoutCovers(cs: seq<Chunk>, start: int, end: int)
    requires 2 <= |cs| <= end - start
    requires forall c :: 0 <= c < |cs| ==> cs[c].start == start + (end - start) / |cs| * c
    requires forall c :: 0 <= c < |cs| - 1 ==> cs[c].end == start + (end - start) / |cs| * (c + 1)
    requires cs[|cs| - 1].end == end
    ensures ChunksCover(cs, start, end)
  {
    var n, q := |cs|, (end - start) / |cs|;
    forall c | 0 <= c < n
      ensures start <= cs[c].start < cs[c].end <= end
    {
      ChunkArithmetic(start, end - start, n, c);
    }
    forall c | 0 <= c < n - 1
      ensures cs[c].end == cs[c + 1].start
    {
      assert q * (c + 1) == q * c + q;
    }
  }

  /** The arithmetic of the chunk bounds for any length: with
      q = length / n >= 0, the chunk [start + q * c, start + q * (c + 1))
      lies inside the range, possibly empty. */
  lemma TileArithmetic(start: int, length: int, n: int, c: int)
    requires 1 <= n && 0 <= length && 0 <= c < n
    ensures start <= start + length / n * c <= start + length / n * (c + 1) <= start + length
  {
    var q := length / n;
    assert length == q * n + length % n && 0 <= length % n;
    assert q >= 0;
    MulMono(q, c + 1, n);
    MulMono(q, c, c + 1);
  }

  /** The chunk bounds sort lays out lie end to end over [start, end),
      whatever the length of the range. */
  lemma LayoutTiles(cs: seq<Chunk>, start: int, end: int)
    requires 1 <= |cs| && start <= end
    requires forall c :: 0 <= c < |cs| ==> cs[c].start == start + (end - start) / |cs| * c
    requires forall c :: 0 <= c < |cs| - 1 ==> cs[c].end == start + (end - start) / |cs| * (c + 1)
    requires cs[|cs| - 1].end == end
    ensures ChunksTile(cs, start, end)
  {
    var n, q := |cs|, (end - start) / |cs|;
    forall c | 0 <= c < n
      ensures start <= cs[c].start <= cs[c].end <= end
    {
      TileArithmetic(start, end - start, n, c);
    }
    forall c | 0 <= c < n - 1
      ensures cs[c].end == cs[c + 1].start
    {
      assert q * (c + 1) == q * c + q;
    }
  }

  /** The chunks laid out at q = (end - start) / n apart, with the last one
      stretched to end: the bounds sort promises. */
  lemma Stretched(laid: seq<Chunk>, cs: seq<Chunk>, start: int, end: int)
    requires 1 <= |laid| && start <= end
    requires forall c :: 0 <= c < |laid| ==> laid[c].start == start + (end - start) / |laid| * c
    requires forall c :: 0 <= c < |laid| ==> laid[c].end == start + (end - start) / |laid| * (c + 1)
    requires cs == laid[|laid| - 1 := laid[|laid| - 1].(end := end)]
    ensures ChunksTile(cs, start, end)
    ensures 2 <= |cs| <= end - start ==> ChunksCover(cs, start, end)
    ensures forall c :: 0 <= c < |cs| ==> cs[c].start == start + (end - start) / |cs| * c
    ensures forall c :: 0 <= c < |cs| - 1 ==> cs[c].end == start + (end - start) / |cs| * (c + 1)
    ensures cs[|cs| - 1].end == end
  {
    LayoutTiles(cs, start, end);
    if 2 <= |cs| <= end - start {
      LayoutCovers(cs, start, end);
    }
  }

  lemma QuotientPositive(length: int, n: int)
    requires 1 <= n <= length
    ensures length / n >= 1
  {
  }

  lemma MulMono(a: int, b: int, c: int)
    requires 0 <= a && b <= c
    ensures a * b <= a * c
  {
    assert a * c - a * b == a * (c - b);
  }

  // ---------------------------------------------------------------------
  // Overlaps
  // ---------------------------------------------------------------------

  /** Enabled overlaps form a prefix of the slots, each spans at least two
      chunks, and each starts at or after the chunk where the previous one
      ends. */
  ghost predicate OverlapsWellFormed(ov: seq<Overlap>, n: int)
  {
    (forall k :: 0 <= k < |ov| && ov[k].enabled ==> 0 <= ov[k].firstChunkID < ov[k].lastChunkID <= n - 1)
    && (forall k, k' :: 0 <= k < k' < |ov| && ov[k'].enabled ==> ov[k].enabled)
    && (forall k :: 0 < k < |ov| && ov[k].enabled ==> ov[k - 1].lastChunkID <= ov[k].firstChunkID)
  }

  /** Some enabled overlap among the first count slots spans chunks c and d. */
  ghost predicate Spanned(ov: seq<Overlap>, count: int, c: int, d: int)
  {
    exists k :: 0 <= k < count && k < |ov| && ov[k].enabled && ov[k].firstChunkID <= c && d <= ov[k].lastChunkID
  }

  /** What the overlaps are for: two chunks that no enabled overlap spans
      are in order, the last element of the earlier one at most the first
      element of the later one. */
  ghost predicate Separated(cs: seq<Chunk>, ov: seq<Overlap>)
  {
    forall c, d :: 0 <= c < d < |cs| ==> cs[c].last <= cs[d].first || Spanned(ov, |ov|, c, d)
  }

  lemma SpannedGrows(ov: seq<Overlap>, ov': seq<Overlap>, count: int, count': int)
    requires 0 <= count <= count' <= |ov'| && count <= |ov|
    requires forall k :: 0 <= k < count ==> ov'[k] == ov[k]
    ensures forall c, d :: Spanned(ov, count, c, d) ==> Spanned(ov', count', c, d)
  {
    forall c, d | Spanned(ov, count, c, d)
      ensures Spanned(ov', count', c, d)
    {
      var k :| 0 <= k < count && k < |ov| && ov[k].enabled && ov[k].firstChunkID <= c && d <= ov[k].lastChunkID;
      assert ov'[k] == ov[k];
    }
  }

  /** The state updateOverlaps ends in: the count slots it filled, enabled
      and chained, then disabled slots. */
  lemma OverlapsSettled(cs: seq<Chunk>, ov: seq<Overlap>, ov': seq<Overlap>, count: int, n: int)
    requires |cs| == n && |ov'| == |ov| && 0 <= count <= |ov|
    requires forall k :: 0 <= k < count ==> ov[k].enabled && 0 <= ov[k].firstChunkID < ov[k].lastChunkID < n
    requires forall k :: 0 < k < count ==> ov[k - 1].lastChunkID <= ov[k].firstChunkID
    requires forall c, d :: 0 <= c < n && c < d < n ==> cs[c].last <= cs[d].first || Spanned(ov, count, c, d)
    requires forall t :: 0 <= t < count ==> ov'[t] == ov[t]
    requires forall t :: count <= t < |ov'| ==> !ov'[t].enabled
    ensures OverlapsWellFormed(ov', n)
    ensures Separated(cs, ov')
  {
    SpannedGrows(ov, ov', count, |ov'|);
  }

  // ---------------------------------------------------------------------
  // The overlap window of sortOverlap
  // ---------------------------------------------------------------------

  /** lowest after the bound loop has seen chunks f+1 .. j: the smallest of
      chunk f's last element and the first elements of those chunks. */
  function LowestFrom(cs: seq<Chunk>, f: int, j: int): (r: int)
    requires 0 <= f <= j < |cs|
    ensures r <= cs[f].last
    ensures forall t :: f < t <= j ==> r <= cs[t].first
    decreases j - f
  {
    if j == f then cs[f].last
    else if LowestFrom(cs, f, j - 1) > cs[j].first then cs[j].first
    else LowestFrom(cs, f, j - 1)
  }

  /** highest after the bound loop has seen chunks f+1 .. j: the largest
      last element of chunks f .. j. */
  function HighestFrom(cs: seq<Chunk>, f: int, j: int): (r: int)
    requires 0 <= f <= j < |cs|
    ensures forall t :: f <= t <= j ==> cs[t].last <= r
    decreases j - f
  {
    if j == f then cs[f].last
    else if HighestFrom(cs, f, j - 1) < cs[j].last then cs[j].last
    else HighestFrom(cs, f, j - 1)
  }

  /** lowest is one of the values it was taken from. */
  lemma {:induction false} LowestFromAttained(cs: seq<Chunk>, f: int, j: int)
    requires 0 <= f <= j < |cs|
    ensures LowestFrom(cs, f, j) == cs[f].last || exists t :: f < t <= j && LowestFrom(cs, f, j) == cs[t].first
    decreases j - f
  {
    if j > f {
      LowestFromAttained(cs, f, j - 1);
      if LowestFrom(cs, f, j - 1) > cs[j].first {
        assert LowestFrom(cs, f, j) == cs[j].first;
      } else if LowestFrom(cs, f, j - 1) != cs[f].last {
        var t :| f < t <= j - 1 && LowestFrom(cs, f, j - 1) == cs[t].first;
        assert LowestFrom(cs, f, j) == cs[t].first;
      }
    }
  }

  /** highest is the last element of one of the chunks f .. j. */
  lemma {:induction false} HighestFromAttained(cs: seq<Chunk>, f: int, j: int)
    requires 0 <= f <= j < |cs|
    ensures exists t :: f <= t <= j && HighestFrom(cs, f, j) == cs[t].last
    decreases j - f
  {
    if j == f {
      assert HighestFrom(cs, f, j) == cs[f].last;
    } else {
      HighestFromAttained(cs, f, j - 1);
      if HighestFrom(cs, f, j - 1) < cs[j].last {
        assert HighestFrom(cs, f, j) == cs[j].last;
      } else {
        var t :| f <= t <= j - 1 && HighestFrom(cs, f, j - 1) == cs[t].last;
        assert HighestFrom(cs, f, j) == cs[t].last;
      }
    }
  }

  /** The downward scan: from pos, step left while above floor and the
      element is greater than bound. */
  function ScanDown(s: seq<int>, pos: int, floor: int, bound: int): (r: int)
    requires 0 <= floor <= pos < |s|
    ensures floor <= r <= pos
    ensures r == floor || s[r] <= bound
    ensures forall t :: r < t <= pos ==> s[t] > bound
    decreases pos - floor
  {
    if pos > floor && s[pos] > bound then ScanDown(s, pos - 1, floor, bound) else pos
  }

  /** The upward scan: from pos, step right while below ceiling and the
      element is less than bound. */
  function ScanUp(s: seq<int>, pos: int, ceiling: int, bound: int): (r: int)
    requires 0 <= pos <= ceiling <= |s|
    ensures pos <= r <= ceiling
    ensures r == ceiling || s[r] >= bound
    ensures forall t :: pos <= t < r ==> s[t] < bound
    decreases ceiling - pos
  {
    if pos < ceiling && s[pos] < bound then ScanUp(s, pos + 1, ceiling, bound) else pos
  }

  /** The chunks of overlap o lie inside [lo, hi) and inside s. */
  ghost predicate WindowDefined(s: seq<int>, cs: seq<Chunk>, o: Overlap, lo: int, hi: int)
  {
    0 <= o.firstChunkID < o.lastChunkID < |cs|
    && 0 <= lo <= cs[o.firstChunkID].end - 1 && cs[o.firstChunkID].end <= |s|
    && 0 <= cs[o.lastChunkID].start <= hi <= |s|
  }

  /** The window sortOverlap sorts: it starts inside the first chunk of the
      overlap, at its last cell or lower but not below lo, and ends in the
      last chunk or later but not past hi. */
  function Window(s: seq<int>, cs: seq<Chunk>, o: Overlap, lo: int, hi: int): (w: (int, int))
    requires WindowDefined(s, cs, o, lo, hi)
    ensures lo <= w.0 <= cs[o.firstChunkID].end - 1
    ensures cs[o.lastChunkID].start <= w.1 <= hi
  {
    var f, l := o.firstChunkID, o.lastChunkID;
    (ScanDown(s, cs[f].end - 1, lo, LowestFrom(cs, f, l)),
     ScanUp(s, cs[l].start, hi, HighestFrom(cs, f, l - 1)))
  }

  /** The window as the two scans from the edges of the overlap. */
  lemma WindowIs(s: seq<int>, cs: seq<Chunk>, o: Overlap, lo: int, hi: int, a: int, b: int)
    requires WindowDefined(s, cs, o, lo, hi)
    requires a == ScanDown(s, cs[o.firstChunkID].end - 1, lo, LowestFrom(cs, o.firstChunkID, o.lastChunkID))
    requires b == ScanUp(s, cs[o.lastChunkID].start, hi, HighestFrom(cs, o.firstChunkID, o.lastChunkID - 1))
    ensures (a, b) == Window(s, cs, o, lo, hi)
  {
  }

  /** What sortOverlap leaves for an enabled overlap o: its window sorted,
      with the cells of the window inside the first chunk as the skip
      prefix. */
  function OverlapSorted(m: SorterMethod, s: seq<int>, cs: seq<Chunk>, o: Overlap, lo: int, hi: int): seq<int>
    requires WindowDefined(s, cs, o, lo, hi)
  {
    var w := Window(s, cs, o, lo, hi);
    SorterResult(m, s, w.0, w.1, cs[o.firstChunkID].end - 1 - w.0)
  }

  lemma OverlapSortedIs(m: SorterMethod, s: seq<int>, cs: seq<Chunk>, o: Overlap, lo: int, hi: int, a: int, b: int)
    requires WindowDefined(s, cs, o, lo, hi) && (a, b) == Window(s, cs, o, lo, hi)
    ensures 0 <= a && 0 <= cs[o.firstChunkID].end - 1 - a && b <= |s|
    ensures OverlapSorted(m, s, cs, o, lo, hi) == SorterResult(m, s, a, b, cs[o.firstChunkID].end - 1 - a)
  {
  }

  /** Sorting an overlap permutes the array; with the insertion sorter it
      leaves every cell outside [lo, hi) alone. */
  lemma OverlapSortedPermutes(m: SorterMethod, s: seq<int>, cs: seq<Chunk>, o: Overlap, lo: int, hi: int)
    requires WindowDefined(s, cs, o, lo, hi)
    ensures |OverlapSorted(m, s, cs, o, lo, hi)| == |s|
    ensures multiset(OverlapSorted(m, s, cs, o, lo, hi)) == multiset(s)
    ensures m == Insertion ==>
      forall t :: 0 <= t < |s| && !(lo <= t < hi) ==> OverlapSorted(m, s, cs, o, lo, hi)[t] == s[t]
  {
    var w := Window(s, cs, o, lo, hi);
    var a, b, skip := w.0, w.1, cs[o.firstChunkID].end - 1 - w.0;
    SorterResultPermutes(m, s, a, b, skip);
    var r := SorterResult(m, s, a, b, skip);
    assert OverlapSorted(m, s, cs, o, lo, hi) == r;
  }

  /** Every cell of the window below the first chunk's last cell holds a
      value above lowest, and every cell between the last chunk's start and
      the window's end holds a value below highest; the window stops at the
      first cell that is not. */
  lemma WindowEdges(s: seq<int>, cs: seq<Chunk>, o: Overlap, lo: int, hi: int)
    requires WindowDefined(s, cs, o, lo, hi)
    ensures var w := Window(s, cs, o, lo, hi);
      (forall t :: w.0 < t < cs[o.firstChunkID].end ==> s[t] > LowestFrom(cs, o.firstChunkID, o.lastChunkID))
      && (w.0 == lo || s[w.0] <= LowestFrom(cs, o.firstChunkID, o.lastChunkID))
      && (forall t :: cs[o.lastChunkID].start <= t < w.1 ==> s[t] < HighestFrom(cs, o.firstChunkID, o.lastChunkID - 1))
      && (w.1 == hi || s[w.1] >= HighestFrom(cs, o.firstChunkID, o.lastChunkID - 1))
  {
  }

  // ---------------------------------------------------------------------
  // The sorter
  // ---------------------------------------------------------------------

  class ParallelSorter {
    const numChunks: int
    const numOverlaps: int
    const sorter: SorterMethod
    const chunks: array<Chunk>
    const overlaps: array<Overlap>
    var data: array<int>
    var sortStart: int
    var sortEnd: int

    ghost predicate Valid()
    {
      2 <= numChunks && numOverlaps == numChunks - 1
      && chunks.Length == numChunks && overlaps.Length == numOverlaps
    }

    /** The constructor, for a chunk count it accepts. */
    constructor (numChunks: int, sorter: SorterMethod)
      requires numChunks >= 2
      ensures Valid() && this.numChunks == numChunks && this.sorter == sorter
      ensures fresh(chunks) && fresh(overlaps)
      ensures forall k :: 0 <= k < overlaps.Length ==> !overlaps[k].enabled
    {
      this.numChunks := numChunks;
      this.numOverlaps := numChunks - 1;
      this.sorter := sorter;
      this.chunks := new Chunk[numChunks](_ => Chunk(0, 0, 0, 0));
      this.overlaps := new Overlap[numChunks - 1](_ => Overlap(false, 0, 0));
      this.data := new int[0];
      this.sortStart := 0;
      this.sortEnd := 0;
    }

    /** new ParallelSorter(numChunks, sorter): fewer than two chunks is an
        illegal argument (null here); otherwise there is one overlap slot
        fewer than chunks. */
    static method Create(numChunks: int, sorter: SorterMethod) returns (p: ParallelSorter?)
      ensures p == null <==> numChunks < 2
      ensures p != null ==>
        fresh(p) && p.Valid() && p.numChunks == numChunks && p.numOverlaps == numChunks - 1 && p.sorter == sorter
    {
      if numChunks < 2 {
        return null;
      }
      p := new ParallelSorter(numChunks, sorter);
    }

    /** The chunk bounds of sort: chunk c is [start + q c, start + q (c+1))
        with q = (end - start) / numChunks, and the last chunk is stretched
        to end. The chunks tile the range; with at least numChunks elements
        none is empty. */
    method SetChunkBounds(start: int, end: int)
      requires Valid() && start <= end
      modifies chunks
      ensures ChunksTile(chunks[..], start, end)
      ensures end - start >= numChunks ==> ChunksCover(chunks[..], start, end)
      ensures forall c :: 0 <= c < numChunks ==> chunks[c].start == start + (end - start) / numChunks * c
      ensures forall c :: 0 <= c < numChunks - 1 ==> chunks[c].end == start + (end - start) / numChunks * (c + 1)
      ensures chunks[numChunks - 1].end == end
    {
      var length := end - start;
      var q := length / numChunks;
      var i := 0;
      while i < numChunks
        invariant 0 <= i <= numChunks
        invariant forall c :: 0 <= c < i ==> chunks[c].start == start + q * c
        invariant forall c :: 0 <= c < i ==> chunks[c].end == start + q * (c + 1)
      {
        chunks[i] := chunks[i].(start := start + q * i, end := start + q * (i + 1));
        i := i + 1;
      }
      ghost var laid := chunks[..];
      chunks[numChunks - 1] := chunks[numChunks - 1].(end := end);
      Stretched(laid, chunks[..], start, end);
    }

    /** sorter.sort(data, start, end, comparator) for the chosen sorter. */
    method SortRange(start: int, end: int)
      requires 0 <= start && end <= data.Length
      modifies data
      ensures data[..] == SorterResult(sorter, old(data[..]), start, end, 0)
    {
      match sorter {
        case Insertion => InsertionMethod.Sort(data, start, end, Identity);
        case Bubble => BubbleMethod.Sort(data, start, end, Identity);
      }
    }

    /** sorter.sort(data, start, end, comparator, skip) for the chosen sorter. */
    method SortRangeSkip(start: int, end: int, skip: int)
      requires 0 <= start && 0 <= skip && end <= data.Length
      modifies data
      ensures data[..] == SorterResult(sorter, old(data[..]), start, end, skip)
    {
      match sorter {
        case Insertion => InsertionMethod.SortSkip(data, start, end, Identity, skip);
        case Bubble => BubbleMethod.SortSkip(data, start, end, Identity, skip);
      }
    }

    /** sortChunk: sort one chunk with the 4-argument sort and record its
        first and last element. */
    method SortChunk(chunkID: int)
      requires Valid() && 0 <= chunkID < numChunks
      requires 0 <= chunks[chunkID].start < chunks[chunkID].end <= data.Length
      modifies data, chunks
      ensures data[..] == SorterResult(sorter, old(data[..]), old(chunks[chunkID].start), old(chunks[chunkID].end), 0)
      ensures chunks[chunkID] == old(chunks[chunkID]).(first := data[old(chunks[chunkID].start)],
                                                      last := data[old(chunks[chunkID].end) - 1])
      ensures forall c :: 0 <= c < numChunks && c != chunkID ==> chunks[c] == old(chunks[c])
    {
      var c := chunks[chunkID];
      SortRange(c.start, c.end);
      chunks[chunkID] := c.(first := data[c.start], last := data[c.end - 1]);
    }

    /** The shards of the chunk-sorting task, run in order. With the
        insertion sorter every chunk ends sorted and summarised. */
    method SortChunks()
      requires Valid() && ChunksCover(chunks[..], sortStart, sortEnd)
      requires 0 <= sortStart && sortEnd <= data.Length
      modifies data, chunks
      ensures SameBounds(chunks[..], old(chunks[..]))
      ensures multiset(data[..]) == old(multiset(data[..]))
      ensures sorter == Insertion ==> ChunksSettled(chunks[..], data[..])
      ensures sorter == Insertion ==>
        forall t :: 0 <= t < data.Length && !(sortStart <= t < sortEnd) ==> data[t] == old(data[t])
      ensures sorter == Insertion ==> forall c :: 0 <= c < numChunks ==>
        multiset(data[chunks[c].start..chunks[c].end]) == multiset(old(data[..])[chunks[c].start..chunks[c].end])
    {
      ghost var cs0 := chunks[..];
      ghost var d0 := data[..];
      var i := 0;
      while i < numChunks
        invariant 0 <= i <= numChunks
        invariant SameBounds(chunks[..], cs0)
        invariant multiset(data[..]) == multiset(d0) && |d0| == data.Length
        invariant sorter == Insertion ==> ShardsDone(cs0, chunks[..], d0, data[..], sortStart, sortEnd, i)
      {
        SortChunkShard(i, cs0, d0);
        i := i + 1;
      }
      if sorter == Insertion {
        ghost var cs, d := chunks[..], data[..];
        AllShardsDone(cs0, cs, d0, d, sortStart, sortEnd);
        forall c | 0 <= c < numChunks
          ensures multiset(data[chunks[c].start..chunks[c].end]) == multiset(d0[chunks[c].start..chunks[c].end])
        {
          assert data[chunks[c].start..chunks[c].end] == d[cs[c].start..cs[c].end];
        }
      }
    }

    /** Changing only the summary of chunk i keeps the bounds. */
    static lemma OneChunkResummarised(cs: seq<Chunk>, cs': seq<Chunk>, cs0: seq<Chunk>, i: int)
      requires SameBounds(cs, cs0) && |cs'| == |cs| && 0 <= i < |cs|
      requires cs'[i].start == cs[i].start && cs'[i].end == cs[i].end
      requires forall c :: 0 <= c < |cs| && c != i ==> cs'[c] == cs[c]
      ensures SameBounds(cs', cs0)
    {
    }

    /** Shard i of the chunk-sorting task: sortChunk(i), with what it
        adds to the invariant of the shards run so far. */
    method SortChunkShard(i: int, ghost cs0: seq<Chunk>, ghost d0: seq<int>)
      requires Valid() && ChunksCover(cs0, sortStart, sortEnd) && 0 <= i < numChunks
      requires 0 <= sortStart && sortEnd <= data.Length
      requires SameBounds(chunks[..], cs0)
      requires multiset(data[..]) == multiset(d0) && |d0| == data.Length
      requires sorter == Insertion ==> ShardsDone(cs0, chunks[..], d0, data[..], sortStart, sortEnd, i)
      modifies data, chunks
      ensures SameBounds(chunks[..], cs0)
      ensures multiset(data[..]) == multiset(d0)
      ensures sorter == Insertion ==> ShardsDone(cs0, chunks[..], d0, data[..], sortStart, sortEnd, i + 1)
    {
      ghost var before := data[..];
      ghost var csBefore := chunks[..];
      assert csBefore[i].start == cs0[i].start && csBefore[i].end == cs0[i].end;
      assert 0 <= cs0[i].start < cs0[i].end <= sortEnd;
      SortChunk(i);
      OneChunkResummarised(csBefore, chunks[..], cs0, i);
      SorterResultPermutes(sorter, before, csBefore[i].start, csBefore[i].end, 0);
      if sorter == Insertion {
        ghost var after, csAfter := data[..], chunks[..];
        assert after == SorterResult(Insertion, before, cs0[i].start, cs0[i].end, 0);
        InsertionShard(cs0, csBefore, d0, before, csAfter, after, sortStart, sortEnd, i);
      }
    }

    /** The inner loops of updateOverlaps for chunk i: highest follows the
        largest last element of the chunks taken in so far, and every later
        chunk whose first element is below it pulls overlapIndex up to
        itself. */
    method ScanOverlap(i: int) returns (overlapIndex: int, highest: int)
      requires Valid() && 0 <= i < numChunks
      ensures i <= overlapIndex < numChunks
      ensures highest == HighestFrom(chunks[..], i, if overlapIndex == i then i else overlapIndex - 1)
      ensures overlapIndex > i ==> chunks[overlapIndex].first < highest
      ensures forall d :: overlapIndex < d < numChunks ==> highest <= chunks[d].first
    {
      ghost var cs := chunks[..];
      var current := chunks[i];
      highest := current.last;
      overlapIndex := i;
      ghost var top := i;
      var j := i + 1;
      while j < numChunks
        invariant i < j <= numChunks
        invariant i <= overlapIndex < j && top == (if overlapIndex == i then i else overlapIndex - 1)
        invariant highest == HighestFrom(cs, i, top)
        invariant overlapIndex > i ==> cs[overlapIndex].first < highest
        invariant forall d :: overlapIndex < d < j ==> highest <= cs[d].first
      {
        var c := chunks[j];
        if highest > c.first {
          while overlapIndex < j
            invariant i <= overlapIndex <= j && top == (if overlapIndex == i then i else overlapIndex - 1)
            invariant highest == HighestFrom(cs, i, top)
            invariant highest > c.first
          {
            var overlapChunk := chunks[overlapIndex];
            if highest < overlapChunk.last {
              highest := overlapChunk.last;
            }
            overlapIndex := overlapIndex + 1;
            top := overlapIndex - 1;
          }
        }
        j := j + 1;
      }
    }

    /** updateOverlaps: scan the chunks for runs whose value ranges overlap,
        record each run in the next overlap slot, and disable the rest. */
    method UpdateOverlaps()
      requires Valid()
      modifies overlaps
      ensures OverlapsWellFormed(overlaps[..], numChunks)
      ensures Separated(chunks[..], overlaps[..])
    {
      ghost var cs := chunks[..];
      ghost var ov := overlaps[..];
      var overlapCount := 0;
      var i := 0;
      while i < numChunks
        invariant 0 <= overlapCount <= i <= numChunks && overlapCount <= numOverlaps
        invariant ov == overlaps[..] && cs == chunks[..]
        invariant forall k :: 0 <= k < overlapCount ==>
          ov[k].enabled && 0 <= ov[k].firstChunkID < ov[k].lastChunkID <= i && ov[k].lastChunkID < numChunks
        invariant forall k :: 0 < k < overlapCount ==> ov[k - 1].lastChunkID <= ov[k].firstChunkID
        invariant forall c, d :: 0 <= c < i && c < d < numChunks ==>
          cs[c].last <= cs[d].first || Spanned(ov, overlapCount, c, d)
        decreases numChunks - i
      {
        var overlapIndex, highest := ScanOverlap(i);
        if overlapIndex == i {
          i := i + 1;
        } else {
          overlaps[overlapCount] := Overlap(true, i, overlapIndex);
          ghost var ov' := overlaps[..];
          assert ov' == ov[overlapCount := Overlap(true, i, overlapIndex)];
          overlapCount := overlapCount + 1;
          SpannedGrows(ov, ov', overlapCount - 1, overlapCount);
          forall c, d | i <= c < overlapIndex && c < d <= overlapIndex
            ensures Spanned(ov', overlapCount, c, d)
          {
            assert ov'[overlapCount - 1] == Overlap(true, i, overlapIndex);
          }
          ov := ov';
          i := overlapIndex;
        }
      }

      DisableFrom(overlapCount);
      OverlapsSettled(cs, ov, overlaps[..], overlapCount, numChunks);
    }

    /** The last loop of updateOverlaps: the slots from `from` on are
        disabled; their chunk ids are left as they were. */
    method DisableFrom(from: int)
      requires Valid() && 0 <= from <= numOverlaps
      modifies overlaps
      ensures forall t :: 0 <= t < from ==> overlaps[t] == old(overlaps[t])
      ensures forall t :: from <= t < numOverlaps ==> overlaps[t] == old(overlaps[t]).(enabled := false)
    {
      var k := from;
      while k < numOverlaps
        invariant from <= k <= numOverlaps
        invariant forall t :: 0 <= t < from || k <= t < numOverlaps ==> overlaps[t] == old(overlaps[t])
        invariant forall t :: from <= t < k ==> overlaps[t] == old(overlaps[t]).(enabled := false)
      {
        overlaps[k] := overlaps[k].(enabled := false);
        k := k + 1;
      }
    }

    /** The bound loop and the two scans of sortOverlap: the window
        [start, end) around an enabled overlap. */
    method OverlapWindow(overlapID: int) returns (start: int, end: int)
      requires Valid() && 0 <= overlapID < numOverlaps
      requires ChunksCover(chunks[..], sortStart, sortEnd) && 0 <= sortStart && sortEnd <= data.Length
      requires 0 <= overlaps[overlapID].firstChunkID < overlaps[overlapID].lastChunkID < numChunks
      ensures WindowDefined(data[..], chunks[..], overlaps[overlapID], sortStart, sortEnd)
      ensures (start, end) == Window(data[..], chunks[..], overlaps[overlapID], sortStart, sortEnd)
    {
      var overlap := overlaps[overlapID];
      var firstChunkID := overlap.firstChunkID;
      var lastChunkID := overlap.lastChunkID;
      var firstChunk := chunks[firstChunkID];
      var lastChunk := chunks[lastChunkID];
      var lowest, highest := OverlapBounds(firstChunkID, lastChunkID);

      ghost var s := data[..];
      start := firstChunk.end - 1;
      end := lastChunk.start;
      while start > sortStart && data[start] > lowest
        invariant sortStart <= start <= firstChunk.end - 1
        invariant ScanDown(s, start, sortStart, lowest) == ScanDown(s, firstChunk.end - 1, sortStart, lowest)
      {
        start := start - 1;
      }
      while end < sortEnd && data[end] < highest
        invariant lastChunk.start <= end <= sortEnd
        invariant ScanUp(s, end, sortEnd, highest) == ScanUp(s, lastChunk.start, sortEnd, highest)
      {
        end := end + 1;
      }
      WindowIs(s, chunks[..], overlap, sortStart, sortEnd, start, end);
    }

    /** The bound loop of sortOverlap: lowest and highest for the overlap
        of chunks firstChunkID .. lastChunkID. */
    method OverlapBounds(firstChunkID: int, lastChunkID: int) returns (lowest: int, highest: int)
      requires Valid() && 0 <= firstChunkID < lastChunkID < numChunks
      ensures lowest == LowestFrom(chunks[..], firstChunkID, lastChunkID)
      ensures highest == HighestFrom(chunks[..], firstChunkID, lastChunkID - 1)
    {
      ghost var cs := chunks[..];
      var firstChunk := chunks[firstChunkID];
      highest := firstChunk.last;
      lowest := firstChunk.last;
      var j := firstChunkID + 1;
      while j <= lastChunkID
        invariant firstChunkID < j <= lastChunkID + 1
        invariant lowest == LowestFrom(cs, firstChunkID, j - 1)
        invariant highest == HighestFrom(cs, firstChunkID, (if j <= lastChunkID then j else lastChunkID) - 1)
      {
        var c := chunks[j];
        if j < lastChunkID && highest < c.last {
          highest := c.last;
        }
        if lowest > c.first {
          lowest := c.first;
        }
        j := j + 1;
      }
    }

    /** sortOverlap: a disabled slot changes nothing; an enabled one has
        its window sorted, with the part of it inside the first chunk passed
        as the already sorted skip prefix. */
    method SortOverlap(overlapID: int)
      requires Valid() && 0 <= overlapID < numOverlaps
      requires ChunksCover(chunks[..], sortStart, sortEnd) && 0 <= sortStart && sortEnd <= data.Length
      requires OverlapsWellFormed(overlaps[..], numChunks)
      modifies data
      ensures !overlaps[overlapID].enabled ==> data[..] == old(data[..])
      ensures overlaps[overlapID].enabled ==>
        WindowDefined(old(data[..]), chunks[..], overlaps[overlapID], sortStart, sortEnd)
        && data[..] == OverlapSorted(sorter, old(data[..]), chunks[..], overlaps[overlapID], sortStart, sortEnd)
    {
      var overlap := overlaps[overlapID];
      if !overlap.enabled {
        return;
      }
      var start, end := OverlapWindow(overlapID);
      var firstChunk := chunks[overlap.firstChunkID];
      ghost var s0 := data[..];
      SortRangeSkip(start, end, firstChunk.end - 1 - start);
      OverlapSortedIs(sorter, s0, chunks[..], overlap, sortStart, sortEnd, start, end);
    }

    /** The shards of the overlap-sorting task, run in order. */
    method SortOverlaps()
      requires Valid() && ChunksCover(chunks[..], sortStart, sortEnd)
      requires 0 <= sortStart && sortEnd <= data.Length
      requires OverlapsWellFormed(overlaps[..], numChunks)
      modifies data
      ensures multiset(data[..]) == old(multiset(data[..]))
      ensures sorter == Insertion ==>
        forall t :: 0 <= t < data.Length && !(sortStart <= t < sortEnd) ==> data[t] == old(data[t])
    {
      var i := 0;
      while i < numOverlaps
        invariant 0 <= i <= numOverlaps
        invariant multiset(data[..]) == old(multiset(data[..]))
        invariant sorter == Insertion ==>
          forall t :: 0 <= t < data.Length && !(sortStart <= t < sortEnd) ==> data[t] == old(data[t])
      {
        ghost var before := data[..];
        SortOverlap(i);
        if overlaps[i].enabled {
          OverlapSortedPermutes(sorter, before, chunks[..], overlaps[i], sortStart, sortEnd);
        }
        i := i + 1;
      }
    }

    /** sort(array, start, end, comparator, executor), with the executor
        replaced by the sequential order it implements. */
    method Sort(arr: array<int>, start: int, end: int)
      requires Valid() && 0 <= start && end <= arr.Length && end - start >= numChunks
      modifies this, chunks, overlaps, arr
      ensures data == arr && sortStart == start && sortEnd == end
      ensures ChunksCover(chunks[..], start, end)
      ensures OverlapsWellFormed(overlaps[..], numChunks) && Separated(chunks[..], overlaps[..])
      ensures multiset(arr[..]) == old(multiset(arr[..]))
      ensures sorter == Insertion ==>
        forall t :: 0 <= t < arr.Length && !(start <= t < end) ==> arr[t] == old(arr[t])
    {
      data := arr;
      sortStart := start;
      sortEnd := end;
      SetChunkBounds(start, end);
      ghost var cs := chunks[..];
      SortChunks();
      assert ChunksCover(chunks[..], start, end) by {
        assert SameBounds(chunks[..], cs);
      }
      UpdateOverlaps();
      SortOverlaps();
    }
  }
}
