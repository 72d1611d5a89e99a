/**
 * Chunk-size selection of the downloader: `get_optimal_chunk_size` and the
 * sentinel test in `download_file` that decides whether it is consulted.
 */
module ChunkSize {
  import opened Wrappers

  const KiB: int := 1024
  const MiB: int := 1024 * 1024

  /** The command line's default chunk size; `download_file` reads this value as "choose adaptively". */
  const DefaultChunkSize: int := 65536

  /** File-size thresholds between the tiers, and the chunk size of each tier, smallest first. */
  const Thresholds: seq<int> := [10 * MiB, 100 * MiB, 500 * MiB]
  const TierSizes: seq<int> := [16 * KiB, 64 * KiB, 256 * KiB, MiB]

  /** Python truthiness of the optional override: `None` and `0` are both false. */
  predicate Truthy(userChunkSize: Option<int>) {
    userChunkSize.Some? && userChunkSize.value != 0
  }

  /** `get_optimal_chunk_size(file_size, user_chunk_size)`. */
  function OptimalChunkSize(fileSize: int, userChunkSize: Option<int>): (r: int)
    ensures Truthy(userChunkSize) ==> r == userChunkSize.value
    ensures !Truthy(userChunkSize) ==> r in TierSizes
  {
    if Truthy(userChunkSize) then userChunkSize.value
    else if fileSize < 10 * MiB then 16 * KiB
    else if fileSize < 100 * MiB then 64 * KiB
    else if fileSize < 500 * MiB then 256 * KiB
    else MiB
  }

  /**
   * The chunk size `download_file` streams with once the total size is known:
   * adaptive exactly when the requested size equals the default, verbatim otherwise.
   */
  function EffectiveChunkSize(chunkSize: int, totalSize: int): (r: int)
    ensures chunkSize != DefaultChunkSize ==> r == chunkSize
    ensures chunkSize == DefaultChunkSize ==> r in TierSizes && r == OptimalChunkSize(totalSize, None)
  {
    if chunkSize == DefaultChunkSize then OptimalChunkSize(totalSize, None) else chunkSize
  }

  /** Number of thresholds at or below `n` in the ascending list `ts`: the index of `n`'s tier. */
  function TierIndex(ts: seq<int>, n: int): (k: nat)
    ensures k <= |ts|
  {
    if ts == [] || n < ts[0] then 0 else 1 + TierIndex(ts[1..], n)
  }

  /** Reference reading of the tier table: the size of the tier whose half-open range holds `n`. */
  function TableChunkSize(n: int): int {
    TierSizes[TierIndex(Thresholds, n)]
  }

  /** Adaptive sizing agrees with the tier table, for every size. */
  lemma {:induction false} AdaptiveFollowsTable(n: int)
    ensures OptimalChunkSize(n, None) == TableChunkSize(n)
  {
    var t0, t1, t2 := Thresholds[1..], Thresholds[2..], Thresholds[3..];
    assert t0 == [100 * MiB, 500 * MiB] && t1 == [500 * MiB] && t2 == [];
    assert TierIndex(t2, n) == 0;
    assert TierIndex(t1, n) == if n < 500 * MiB then 0 else 1;
    assert TierIndex(t0, n) == if n < 100 * MiB then 0 else 1 + TierIndex(t1, n);
  }

  /** A truthy override is returned unchanged whatever the size; a falsy one falls back to the table. */
  lemma OverrideWins(n: int, u: Option<int>)
    ensures Truthy(u) ==> OptimalChunkSize(n, u) == u.value
    ensures !Truthy(u) ==> OptimalChunkSize(n, u) == OptimalChunkSize(n, None) == TableChunkSize(n)
  {
    AdaptiveFollowsTable(n);
  }

  /** The tiers are half-open: each threshold itself already selects the larger tier. */
  lemma TierBoundaries()
    ensures OptimalChunkSize(10 * MiB - 1, None) == 16 * KiB && OptimalChunkSize(10 * MiB, None) == 64 * KiB
    ensures OptimalChunkSize(100 * MiB - 1, None) == 64 * KiB && OptimalChunkSize(100 * MiB, None) == 256 * KiB
    ensures OptimalChunkSize(500 * MiB - 1, None) == 256 * KiB && OptimalChunkSize(500 * MiB, None) == MiB
  {
  }

  /** Adaptive sizing never picks a smaller chunk for a larger file. */
  lemma {:induction false} AdaptiveMonotone(m: int, n: int)
    requires m <= n
    ensures OptimalChunkSize(m, None) <= OptimalChunkSize(n, None)
  {
  }

  /**
   * The sentinel cannot express an explicit request for 64 KiB: asking for
   * exactly the default on a small file streams in 16 KiB chunks.
   */
  lemma ExplicitDefaultIsAdaptive()
    ensures EffectiveChunkSize(DefaultChunkSize, 0) == 16 * KiB != DefaultChunkSize
  {
  }
}
