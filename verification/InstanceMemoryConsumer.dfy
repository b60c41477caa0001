/** How important a cached block is for the play points behind it, and which blocks go when memory is short. */
module InstanceMemoryConsumers {
  import opened Arithmetic

  const RELEVANT_BLOCKS: nat := 10
  const SCORE_BASE: nat := 5
  const MOST_WANTED: nat := 3

  function DistanceScore(distance: nat, range: nat, base: nat): (score: nat)
    requires range > 0
    ensures score >= 1
  {
    if distance >= range then 1
    else
      var s := base * (range - distance) / range;
      if s > 1 then s else 1
  }

  lemma ShareIsScore(share: nat, range: nat)
    requires range > 0
    ensures var s := share / range; var score := if s > 1 then s else 1;
            if share < range then score == 1 else Floor(score, share, range)
  {
    Division(share, range);
    if share < range {
      FloorBelow(share / range, share, range, 1);
    } else {
      Cancels(0, share / range + 1, range);
    }
  }

  /** Within range the score is the base's share of what is left of the range, rounded down, but at least one. */
  lemma WithinRange(distance: nat, range: nat, base: nat)
    requires distance < range
    ensures var score, share := DistanceScore(distance, range, base), base * (range - distance);
            if share < range then score == 1 else Floor(score, share, range)
  {
    hide Floor;
    ShareIsScore(base * (range - distance), range);
  }

  /** The score falls with the distance, from the base at the play point itself to one out of range. */
  lemma DistanceScoreFalls(near: nat, far: nat, range: nat, base: nat)
    requires range > 0 && base > 0 && near <= far
    ensures DistanceScore(far, range, base) <= DistanceScore(near, range, base) <= base
    ensures DistanceScore(0, range, base) == base
    ensures far >= range ==> DistanceScore(far, range, base) == 1
  {
    WholeQuotient(base, range);
    if near < range {
      assert base * (range - near) <= base * range;
      QuotientGrows(base * (range - near), base * range, range);
    }
    if far < range {
      assert base * (range - far) <= base * (range - near);
      QuotientGrows(base * (range - far), base * (range - near), range);
    }
  }

  /** What one play point adds to a block: nothing when the point is already past it. */
  function PointScore(point: nat, block: nat): nat {
    if point <= block then DistanceScore(block - point, RELEVANT_BLOCKS, SCORE_BASE) else 0
  }

  /** The sum over all play points, in whatever order they are listed. */
  function Relevance(points: seq<nat>, block: nat): nat {
    if points == [] then 0 else Relevance(points[..|points| - 1], block) + PointScore(points[|points| - 1], block)
  }

  function Score(points: seq<nat>, downloading: set<nat>, block: nat): nat {
    Relevance(points, block) + if block in downloading then 1 else 0
  }

  predicate Ascending(points: seq<nat>) {
    forall i, j :: 0 <= i < j < |points| ==> points[i] <= points[j]
  }

  // ---------------------------------------------------------------------------------------
  // The score does not depend on the order

  lemma {:induction false} RelevanceSplits(a: seq<nat>, b: seq<nat>, block: nat)
    ensures Relevance(a + b, block) == Relevance(a, block) + Relevance(b, block)
    decreases |b|
  {
    if b == [] {
      assert a + b == a;
    } else {
      RelevanceSplits(a, b[..|b| - 1], block);
      assert (a + b)[..|a + b| - 1] == a + b[..|b| - 1];
    }
  }

  lemma RelevanceOfOne(p: nat, block: nat)
    ensures Relevance([p], block) == PointScore(p, block)
  {
    assert [p][..0] == [];
  }

  lemma RelevanceWithout(b: seq<nat>, i: nat, block: nat)
    requires i < |b|
    ensures Relevance(b, block) == Relevance(b[..i] + b[i + 1..], block) + PointScore(b[i], block)
  {
    hide PointScore;
    assert b == b[..i] + ([b[i]] + b[i + 1..]);
    RelevanceSplits(b[..i], [b[i]] + b[i + 1..], block);
    RelevanceSplits([b[i]], b[i + 1..], block);
    RelevanceSplits(b[..i], b[i + 1..], block);
    RelevanceOfOne(b[i], block);
  }

  lemma MultisetWithout(b: seq<nat>, i: nat)
    requires i < |b|
    ensures multiset(b[..i] + b[i + 1..]) == multiset(b) - multiset{b[i]}
  {
    assert b == b[..i] + ([b[i]] + b[i + 1..]);
  }

  lemma {:induction false} OrderDoesNotMatter(a: seq<nat>, b: seq<nat>, block: nat)
    requires multiset(a) == multiset(b)
    ensures Relevance(a, block) == Relevance(b, block)
    decreases |a|
  {
    hide PointScore;
    assert |a| == |multiset(a)| == |multiset(b)| == |b|;
    if a != [] {
      var n := |a| - 1;
      assert a[n] in multiset(b);
      var i :| 0 <= i < |b| && b[i] == a[n];
      MultisetWithout(b, i);
      MultisetWithout(a, n);
      assert a[..n] + a[n + 1..] == a[..n];
      OrderDoesNotMatter(a[..n], b[..i] + b[i + 1..], block);
      RelevanceWithout(b, i, block);
    }
  }

  /** A cached block has a positive score exactly when it is being downloaded or some play point has not passed it. */
  lemma {:induction false} PositiveIff(points: seq<nat>, downloading: set<nat>, block: nat)
    ensures Score(points, downloading, block) > 0 <==>
            block in downloading || exists i :: 0 <= i < |points| && points[i] <= block
    decreases |points|
  {
    if points != [] {
      PositiveIff(points[..|points| - 1], downloading, block);
      var rest := points[..|points| - 1];
      if exists i :: 0 <= i < |points| && points[i] <= block {
        var i :| 0 <= i < |points| && points[i] <= block;
        assert i < |rest| ==> rest[i] == points[i];
      } else {
        assert forall i :: 0 <= i < |rest| ==> rest[i] == points[i];
      }
    }
  }

  lemma {:induction false} PastPointsAddNothing(points: seq<nat>, from: nat, block: nat)
    requires from <= |points| && forall i :: from <= i < |points| ==> points[i] > block
    ensures Relevance(points, block) == Relevance(points[..from], block)
    decreases |points|
  {
    if from < |points| {
      PastPointsAddNothing(points[..|points| - 1], from, block);
      assert points[..|points| - 1][..from] == points[..from];
    } else {
      assert points[..from] == points;
    }
  }

  /** The last play point at or before the block, or -1. */
  method FindMostRelevantPlayPointIndex(sorted: seq<nat>, block: nat) returns (index: int)
    requires Ascending(sorted)
    ensures -1 <= index < |sorted|
    ensures forall i :: 0 <= i < |sorted| ==> (sorted[i] <= block <==> i <= index)
  {
    for i := 0 to |sorted|
      invariant forall k :: 0 <= k < i ==> sorted[k] <= block
    {
      if sorted[i] > block {
        return i - 1;
      }
    }
    index := |sorted| - 1;
  }

  /** Summed downwards from that point; the unsorted list gives the same. */
  method GetPlayPointsRelevanceScore(block: nat, sorted: seq<nat>, ghost points: seq<nat>) returns (score: nat)
    requires Ascending(sorted) && multiset(sorted) == multiset(points)
    ensures score == Relevance(points, block)
  {
    score := 0;
    var index := FindMostRelevantPlayPointIndex(sorted, block);
    PastPointsAddNothing(sorted, index + 1, block);
    OrderDoesNotMatter(sorted, points, block);
    var i := index;
    while i >= 0
      invariant -1 <= i <= index
      invariant score + Relevance(sorted[..i + 1], block) == Relevance(sorted[..index + 1], block)
    {
      assert sorted[..i + 1][..i] == sorted[..i];
      score := score + DistanceScore(block - sorted[i], RELEVANT_BLOCKS, SCORE_BASE);
      i := i - 1;
    }
  }

  method BuildBlocksImportanceScore(blockCount: nat, cached: set<nat>, downloading: set<nat>, sorted: seq<nat>,
                                    ghost points: seq<nat>) returns (scores: map<nat, nat>)
    requires Ascending(sorted) && multiset(sorted) == multiset(points)
    ensures scores == map b | b in cached && b < blockCount :: Score(points, downloading, b)
  {
    scores := map[];
    for b := 0 to blockCount
      invariant scores == map c | c in cached && c < b :: Score(points, downloading, c)
    {
      if b in cached {
        var relevance := GetPlayPointsRelevanceScore(b, sorted, points);
        var writing := if b in downloading then 1 else 0;
        scores := scores[b := relevance + writing];
      }
    }
  }

  // ---------------------------------------------------------------------------------------
  // Eviction

  datatype Ranked = Ranked(score: nat, block: nat)

  /** The multimap: ascending scores, new entries after equal ones. */
  function Insert(list: seq<Ranked>, x: Ranked): seq<Ranked> {
    if list == [] || list[|list| - 1].score <= x.score then list + [x]
    else Insert(list[..|list| - 1], x) + [list[|list| - 1]]
  }

  ghost predicate AscendingScores(list: seq<Ranked>) {
    forall i, j :: 0 <= i < j < |list| ==> list[i].score <= list[j].score
  }

  ghost predicate AtMost(list: seq<Ranked>, score: nat) {
    forall i :: 0 <= i < |list| ==> list[i].score <= score
  }

  lemma {:induction false} InsertAtMost(list: seq<Ranked>, x: Ranked, score: nat)
    requires AtMost(list, score) && x.score <= score
    ensures AtMost(Insert(list, x), score)
    decreases |list|
  {
    if list != [] && list[|list| - 1].score > x.score {
      InsertAtMost(list[..|list| - 1], x, score);
    }
  }

  lemma {:induction false} InsertKeeps(list: seq<Ranked>, x: Ranked)
    ensures multiset(Insert(list, x)) == multiset(list) + multiset{x}
    decreases |list|
  {
    if list != [] && list[|list| - 1].score > x.score {
      var rest, last := list[..|list| - 1], list[|list| - 1];
      InsertKeeps(rest, x);
      assert list == rest + [last];
      assert multiset(list) == multiset(rest) + multiset{last};
    }
  }

  lemma AppendAscending(list: seq<Ranked>, last: Ranked)
    requires AscendingScores(list) && AtMost(list, last.score)
    ensures AscendingScores(list + [last])
  {
  }

  lemma {:induction false} InsertSorted(list: seq<Ranked>, x: Ranked)
    requires AscendingScores(list)
    ensures AscendingScores(Insert(list, x)) && multiset(Insert(list, x)) == multiset(list) + multiset{x}
    decreases |list|
  {
    InsertKeeps(list, x);
    if list == [] || list[|list| - 1].score <= x.score {
      AppendAscending(list, x);
    } else {
      var rest, last := list[..|list| - 1], list[|list| - 1];
      InsertSorted(rest, x);
      InsertAtMost(rest, x, last.score);
      AppendAscending(Insert(rest, x), last);
    }
  }

  /** The list holds the blocks of `blocks`, each once, with its score. */
  ghost predicate Ranks(list: seq<Ranked>, blocks: set<nat>, points: seq<nat>, downloading: set<nat>) {
    && AscendingScores(list)
    && |list| == |blocks|
    && (forall i :: 0 <= i < |list| ==> list[i].block in blocks && list[i].score == Score(points, downloading, list[i].block))
    && (forall b :: b in blocks ==> exists i :: 0 <= i < |list| && list[i].block == b)
  }

  lemma RanksNone(points: seq<nat>, downloading: set<nat>)
    ensures Ranks([], {}, points, downloading)
  {
  }

  lemma RanksInsert(list: seq<Ranked>, blocks: set<nat>, points: seq<nat>, downloading: set<nat>, b: nat)
    requires Ranks(list, blocks, points, downloading) && b !in blocks
    ensures Ranks(Insert(list, Ranked(Score(points, downloading, b), b)), blocks + {b}, points, downloading)
  {
    hide Score, Insert;
    var x := Ranked(Score(points, downloading, b), b);
    var r := Insert(list, x);
    InsertSorted(list, x);
    assert |r| == |multiset(r)| == |list| + 1;
    forall i | 0 <= i < |r|
      ensures r[i] == x || r[i] in list
    {
      assert r[i] in multiset(r);
    }
    forall c | c in blocks + {b}
      ensures exists i :: 0 <= i < |r| && r[i].block == c
    {
      if c == b {
        assert x in multiset(r);
      } else {
        var i :| 0 <= i < |list| && list[i].block == c;
        assert list[i] in multiset(r);
      }
    }
  }

  ghost function Wanted(cached: set<nat>, blockCount: nat, points: seq<nat>, downloading: set<nat>): set<nat> {
    set b | b in cached && b < blockCount && Score(points, downloading, b) > 0
  }

  ghost function MostWanted(cached: set<nat>, blockCount: nat, points: seq<nat>, downloading: set<nat>): set<nat> {
    set b | b in cached && b < blockCount && Score(points, downloading, b) >= MOST_WANTED
  }

  function BlocksQuota(quota: nat, blockSize: nat): nat {
    if quota == 0 || blockSize == 0 then 0 else (quota + blockSize - 1) / blockSize
  }

  /** Being downloaded is worth one more. */
  lemma DownloadingCounts(points: seq<nat>, downloading: set<nat>, block: nat)
    ensures Score(points, downloading, block) == Score(points, {}, block) + if block in downloading then 1 else 0
  {
  }

  /** A block four ahead of one play point, one ahead of another, and being downloaded; and one just played. */
  lemma ScoresOfSome()
    ensures Score([0, 3], {4}, 4) == 3 + 4 + 1 && Score([5], {}, 4) == 0
    ensures MostWanted({4, 6}, 7, [0], {}) == {4} && Wanted({4, 6}, 7, [0], {}) == {4, 6}
  {
    assert [0, 3][..1] == [0];
    RelevanceOfOne(0, 4);
    RelevanceOfOne(5, 4);
    RelevanceOfOne(0, 6);
    assert Relevance([0, 3], 4) == Relevance([0], 4) + PointScore(3, 4);
  }

  /** Without a quota, or without a block size, no block is allowed. */
  lemma NoQuota(quota: nat, blockSize: nat)
    requires quota == 0 || blockSize == 0
    ensures BlocksQuota(quota, blockSize) == 0
  {
  }

  /** The quota in blocks is the least number that covers it. */
  lemma BlocksQuotaIsLeast(quota: nat, blockSize: nat)
    requires blockSize > 0
    ensures quota <= BlocksQuota(quota, blockSize) * blockSize
    ensures BlocksQuota(quota, blockSize) > 0 ==> (BlocksQuota(quota, blockSize) - 1) * blockSize < quota
  {
    if quota > 0 {
      var q, n := BlocksQuota(quota, blockSize), quota + blockSize - 1;
      assert n == q * blockSize + n % blockSize;
      assert (q - 1) * blockSize == q * blockSize - blockSize;
    }
  }

  ghost function AtLeast(scores: map<nat, nat>, bar: nat): set<nat> {
    set b | b in scores && scores[b] >= bar
  }

  ghost function Visited(scores: map<nat, nat>, bar: nat, todo: set<nat>): set<nat> {
    set b | b in scores && b !in todo && scores[b] >= bar
  }

  lemma VisitNext(scores: map<nat, nat>, bar: nat, todo: set<nat>, b: nat)
    requires b in todo && b in scores
    ensures |Visited(scores, bar, todo - {b})| == |Visited(scores, bar, todo)| + if scores[b] >= bar then 1 else 0
  {
    assert Visited(scores, bar, todo - {b}) == Visited(scores, bar, todo) + if scores[b] >= bar then {b} else {};
  }

  /** How many wanted blocks are left, of `n` under a quota of `q`. */
  function Left(n: nat, q: nat): nat {
    if n >= q then n else if n <= q - n then 0 else n - (q - n)
  }

  function Min(a: nat, b: nat): nat {
    if a < b then a else b
  }

  /**
   What the guard would be for is to cut the wanted blocks down to the quota. It does so exactly
   when there is nothing to cut: with as many as the quota, or none. And it takes blocks away
   exactly when there are fewer than the quota.
   */
  lemma QuotaMetIff(n: nat, q: nat)
    ensures Left(n, q) == Min(n, q) <==> n == q || n == 0
    ensures Left(n, q) <= q <==> n <= q
    ensures n < q ==> n - Left(n, q) == Min(n, q - n)
    ensures Left(n, q) < n <==> 0 < n < q
  {
  }

  lemma FewerIffOther(before: set<nat>, after: set<nat>)
    requires after <= before
    ensures after == before <==> |after| == |before|
  {
    assert before == after + (before - after) && |before| == |after| + |before - after|;
  }

  lemma OneBlock(cached: set<nat>)
    requires cached <= {0}
    ensures Wanted(cached, 1, [0], {}) == cached
  {
    var points: seq<nat> := [0];
    PositiveIff(points, {}, 0);
    assert points[0] == 0;
  }

  class InstanceMemoryConsumer {
    const blockCount: nat
    const blockSize: nat
    var cached: set<nat>
    var downloading: set<nat>

    constructor (blockCount: nat, blockSize: nat, cached: set<nat>, downloading: set<nat>)
      ensures this.blockCount == blockCount && this.blockSize == blockSize
      ensures this.cached == cached && this.downloading == downloading
    {
      this.blockCount, this.blockSize, this.cached, this.downloading := blockCount, blockSize, cached, downloading;
    }

    /** The two sizes are the blocks a play point could want, and those it wants most. */
    method GetMemoryUsage(sorted: seq<nat>, ghost points: seq<nat>) returns (minimum: nat, desirable: nat, normal: bool)
      requires Ascending(sorted) && multiset(sorted) == multiset(points)
      ensures desirable == |Wanted(cached, blockCount, points, downloading)| * blockSize
      ensures minimum == |MostWanted(cached, blockCount, points, downloading)| * blockSize
      ensures normal <==> Wanted(cached, blockCount, points, downloading) != {}
    {
      hide Score;
      var scores := BuildBlocksImportanceScore(blockCount, cached, downloading, sorted, points);
      var minBlocks, desirableBlocks := CountWanted(scores);
      assert Wanted(cached, blockCount, points, downloading) == AtLeast(scores, 1);
      assert MostWanted(cached, blockCount, points, downloading) == AtLeast(scores, MOST_WANTED);
      minimum, desirable, normal := minBlocks * blockSize, desirableBlocks * blockSize, desirableBlocks > 0;
    }

    static method CountWanted(scores: map<nat, nat>) returns (minBlocks: nat, desirableBlocks: nat)
      ensures desirableBlocks == |AtLeast(scores, 1)| && minBlocks == |AtLeast(scores, MOST_WANTED)|
    {
      minBlocks, desirableBlocks := 0, 0;
      var todo := scores.Keys;
      assert Visited(scores, 1, todo) == {} == Visited(scores, MOST_WANTED, todo);
      while todo != {}
        invariant todo <= scores.Keys
        invariant desirableBlocks == |Visited(scores, 1, todo)| && minBlocks == |Visited(scores, MOST_WANTED, todo)|
        decreases todo
      {
        var b :| b in todo;
        VisitNext(scores, 1, todo, b);
        VisitNext(scores, MOST_WANTED, todo, b);
        if scores[b] > 0 {
          desirableBlocks := desirableBlocks + 1;
          if scores[b] >= MOST_WANTED {
            minBlocks := minBlocks + 1;
          }
        }
        todo := todo - {b};
      }
      assert Visited(scores, 1, {}) == AtLeast(scores, 1);
      assert Visited(scores, MOST_WANTED, {}) == AtLeast(scores, MOST_WANTED);
    }

    /**
     Blocks nobody wants go first, then the least wanted ones. No block that stays scores lower
     than one that went. The guard compares the wrong way round, so blocks are removed when there
     is room; the last clause says what that means for the quota.
     */
    method SetMemoryQuota(quota: nat, sorted: seq<nat>, ghost points: seq<nat>)
      requires Ascending(sorted) && multiset(sorted) == multiset(points)
      modifies `cached
      ensures cached <= old(cached)
      ensures forall b :: b in old(cached) && b >= blockCount ==> b in cached
      ensures forall e, b :: e in old(cached) - cached && b in cached && b < blockCount ==>
                Score(points, downloading, e) <= Score(points, downloading, b)
      ensures |Wanted(cached, blockCount, points, downloading)| ==
              Left(|Wanted(old(cached), blockCount, points, downloading)|, BlocksQuota(quota, blockSize))
      ensures var before, after := Wanted(old(cached), blockCount, points, downloading), Wanted(cached, blockCount, points, downloading);
              var q := BlocksQuota(quota, blockSize);
              && after <= before
              && (|after| <= q <==> |before| <= q)
              && (|after| == Min(|before|, q) <==> |before| == q || before == {})
              && (after != before <==> 0 < |before| < q)
    {
      hide Score;
      ghost var wanted := Wanted(cached, blockCount, points, downloading);
      var scores := BuildBlocksImportanceScore(blockCount, cached, downloading, sorted, points);
      var left, ranking := Rank(blockCount, cached, scores, downloading, points);
      assert wanted == Wanted(left, blockCount, points, downloading) && |ranking| == |wanted|;
      var q := BlocksQuota(quota, blockSize);
      ghost var ranked := left;
      if |ranking| < q {
        left := EvictLowest(left, ranking, q - |ranking|, wanted, points, downloading);
      }
      assert Wanted(left, blockCount, points, downloading) == wanted * left;
      assert wanted * ranked == wanted;
      forall b | b in cached && b >= blockCount
        ensures b in left
      {
        assert b in ranked && b !in wanted && b !in ranked - left;
      }
      forall e, b | e in cached - left && b in left && b < blockCount
        ensures Score(points, downloading, e) <= Score(points, downloading, b)
      {
        assert e in ranked ==> e in ranked - left && b in wanted * left;
      }
      QuotaMetIff(|wanted|, q);
      FewerIffOther(wanted, wanted * left);
      cached := left;
    }

    /** One wanted block and room for two: it is evicted. */
    static method EvictsWithRoom() returns (left: set<nat>)
      ensures left == {}
    {
      var consumer := new InstanceMemoryConsumer(1, 1, {0}, {});
      OneBlock({0});
      consumer.SetMemoryQuota(2, [0], [0]);
      left := consumer.cached;
      OneBlock(left);
    }

    /** The first loop: unwanted blocks are evicted, wanted ones ranked. */
    static method Rank(blockCount: nat, cached: set<nat>, scores: map<nat, nat>, ghost downloading: set<nat>, ghost points: seq<nat>)
      returns (left: set<nat>, ranking: seq<Ranked>)
      requires scores == map b | b in cached && b < blockCount :: Score(points, downloading, b)
      ensures left == set b | b in cached && (b >= blockCount || Score(points, downloading, b) > 0)
      ensures Ranks(ranking, Wanted(cached, blockCount, points, downloading), points, downloading)
    {
      hide Ranks, Score;
      left, ranking := cached, [];
      RanksNone(points, downloading);
      assert Wanted(cached, 0, points, downloading) == {};
      for b := 0 to blockCount
        invariant left == set c | c in cached && (c >= b || Score(points, downloading, c) > 0)
        invariant Ranks(ranking, Wanted(cached, b, points, downloading), points, downloading)
      {
        if b in scores && scores[b] > 0 {
          RanksInsert(ranking, Wanted(cached, b, points, downloading), points, downloading, b);
          assert Wanted(cached, b + 1, points, downloading) == Wanted(cached, b, points, downloading) + {b};
          ranking := Insert(ranking, Ranked(scores[b], b));
        } else {
          assert Wanted(cached, b + 1, points, downloading) == Wanted(cached, b, points, downloading);
          left := left - {b};
        }
      }
    }

    /** The second loop: from the lowest score up. */
    static method EvictLowest(cached: set<nat>, ranking: seq<Ranked>, number: nat, ghost wanted: set<nat>,
                              ghost points: seq<nat>, ghost downloading: set<nat>) returns (left: set<nat>)
      requires Ranks(ranking, wanted, points, downloading) && wanted <= cached
      ensures left <= cached && cached - left <= wanted
      ensures |wanted * left| == if |wanted| <= number then 0 else |wanted| - number
      ensures forall e, b :: e in cached - left && b in wanted * left ==>
                Score(points, downloading, e) <= Score(points, downloading, b)
    {
      hide Score, Ranks;
      left := cached;
      var toRemove := number;
      var i := 0;
      while i < |ranking| && toRemove > 0
        invariant 0 <= i <= |ranking| && toRemove == number - i
        invariant left == cached - Blocks(ranking[..i])
      {
        assert ranking[..i + 1] == ranking[..i] + [ranking[i]];
        left := left - {ranking[i].block};
        toRemove := toRemove - 1;
        i := i + 1;
      }
      EvictedAreLowest(ranking, i, wanted, points, downloading);
      assert wanted * left == wanted - Blocks(ranking[..i]);
    }
  }

  ghost function Blocks(list: seq<Ranked>): set<nat> {
    set k | 0 <= k < |list| :: list[k].block
  }

  lemma EvictedAreLowest(list: seq<Ranked>, i: nat, wanted: set<nat>, points: seq<nat>, downloading: set<nat>)
    requires Ranks(list, wanted, points, downloading) && i <= |list|
    ensures |list| == |wanted| && Blocks(list[..i]) <= wanted && |wanted - Blocks(list[..i])| == |list| - i
    ensures forall e, b :: e in Blocks(list[..i]) && b in wanted - Blocks(list[..i]) ==>
              Score(points, downloading, e) <= Score(points, downloading, b)
  {
    hide Score;
    var low, high := Blocks(list[..i]), Blocks(list[i..]);
    assert wanted == low + high;
    BlocksAtMost(list[..i]);
    BlocksAtMost(list[i..]);
    assert |low + high| == |low| + |high| - |low * high|;
    assert low * high == {};
    assert wanted - low == high;
  }

  lemma {:induction false} BlocksAtMost(list: seq<Ranked>)
    ensures |Blocks(list)| <= |list|
    decreases |list|
  {
    if list == [] {
      assert Blocks(list) == {};
    } else {
      BlocksAtMost(list[..|list| - 1]);
      assert Blocks(list) == Blocks(list[..|list| - 1]) + {list[|list| - 1].block};
    }
  }
}
