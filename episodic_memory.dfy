/** One call of `episodic_memory_intrinsic_rewards` as a function of values
    (rlax/_src/exploration.py, lines 147-279), and what a sequence of calls
    does to the state threaded through them. */
module EpisodicMemory {
  import opened ModArith
  import opened Memory
  import opened Reward

  datatype Option<T> = None | Some(value: T)

  /** Why a call fails; each stands for the exception the code raises. */
  datatype Error =
    | PaddingShape   // fresh state: the [K, D] zero padding does not broadcast onto `memory[:K]` (line 221)
    | ShapeMismatch  // a supplied memory is not [max_memory_size, D] (lines 223-224)
    | ZeroCapacity   // max_memory_size == 0: `% 0` on Python ints (lines 234, 277)
    | NoFeatures     // D == 0: `embeddings[..., 0]` is out of bounds (line 265)

  datatype Result<T> = Ok(value: T) | Err(error: Error)

  /** The fields of `IntrinsicRewardState` (lines 147-152) as a value. */
  datatype StateValue = StateValue(
    memory: seq<seq<Value>>,
    memoryWidth: nat,
    nextMemoryIndex: int,
    distanceSum: real,
    distanceCount: int)

  /** The keyword default of `max_memory_size` (line 164). */
  const DefaultMaxMemorySize: nat := 30000

  /** The nearest-neighbour query: (memory, embeddings, K) to the [M, K]
      squared distances of each embedding to its K nearest memory rows. */
  type Knn = (seq<seq<Value>>, seq<seq<real>>, nat) -> seq<seq<real>>

  /** What the model assumes of the query: M rows of K non-negative distances. */
  ghost predicate KnnContract(knn: Knn)
  {
    forall mem, emb, k ::
      |knn(mem, emb, k)| == |emb| && IsMatrix(knn(mem, emb, k), k) && AllNonNegative(knn(mem, emb, k))
  }

  /** The memory is a [rows, memoryWidth] array, and the running statistics
      are as every state this code builds has them. */
  predicate ValidState(s: StateValue)
  {
    IsMatrix(s.memory, s.memoryWidth) && 0.0 <= s.distanceSum && 0 <= s.distanceCount
  }

  /** The state built when none is supplied (lines 214-221): the fresh memory
      and the dataclass defaults 0 for the three counters. */
  function FreshState(cap: nat, width: nat, k: nat): StateValue
    requires PaddingBroadcasts(k, cap, width)
  {
    StateValue(FreshMemory(cap, width, k), width, 0, 0.0, 0)
  }

  /** A fresh state has zero rows below K, `+inf` rows from K on, a [cap, D]
      memory and all three counters at 0. */
  lemma FreshStateLayout(cap: nat, width: nat, k: nat)
    requires PaddingBroadcasts(k, cap, width)
    ensures var s := FreshState(cap, width, k);
      && |s.memory| == cap && s.memoryWidth == width && ValidState(s)
      && (forall r, c :: 0 <= r < k && r < cap && 0 <= c < width ==> s.memory[r][c] == Finite(0.0))
      && (forall r, c :: k <= r < cap && 0 <= c < width ==> s.memory[r][c] == Inf)
      && s.nextMemoryIndex == 0 && s.distanceSum == 0.0 && s.distanceCount == 0
  {
    FreshMemoryLayout(cap, width, k);
  }

  /** The state the call works on (lines 213-224): a fresh one, or the
      supplied one once its memory shape is checked. */
  function Initial(pre: Option<StateValue>, width: nat, k: nat, cap: nat): Result<StateValue>
  {
    match pre
    case None => if PaddingBroadcasts(k, cap, width) then Ok(FreshState(cap, width, k)) else Err(PaddingShape)
    case Some(s) => if |s.memory| == cap && s.memoryWidth == width then Ok(s) else Err(ShapeMismatch)
  }

  /** The bookkeeping of one call (lines 233-244, 275-279): insertion at the
      reduced cursor, the cursor as line 277 computes it, and the running sums. */
  function Update(s: StateValue, emb: seq<seq<real>>, dists: seq<seq<real>>, cap: nat): StateValue
    requires |s.memory| == cap > 0 && |emb| <= cap
  {
    var start := StartIndex(s.nextMemoryIndex, |s.memory|);
    StateValue(
      InsertBatch(s.memory, start, emb),
      s.memoryWidth,
      NextIndex(start, |emb|, cap),
      s.distanceSum + SumAll(dists),
      s.distanceCount + Size(dists))
  }

  /** One call of `episodic_memory_intrinsic_rewards`: the distances are read
      from the memory as it was before the insertion. */
  function Step(pre: Option<StateValue>, emb: seq<seq<real>>, width: nat, k: nat, cap: nat,
                p: RewardParams, knn: Knn, sqrt: real -> real): Result<(seq<real>, StateValue)>
    requires IsMatrix(emb, width) && |emb| <= cap
    requires ParamsValid(p) && KnnContract(knn) && SqrtContract(sqrt)
    requires pre.Some? ==> ValidState(pre.value)
  {
    match Initial(pre, width, k, cap)
    case Err(e) => Err(e)
    case Ok(s) =>
      if cap == 0 then Err(ZeroCapacity)
      else if width == 0 then Err(NoFeatures)
      else
        var dists := knn(s.memory, emb, k);
        var next := Update(s, emb, dists, cap);
        SizeZeroIffEmptyRows(dists);
        SumAllNonNegative(dists);
        Ok((Rewards(dists, next.distanceSum, next.distanceCount, p, sqrt), next))
  }

  /** A call fails exactly when the fresh padding does not fit, the supplied
      memory has the wrong shape, the capacity is 0 or the embeddings have no
      features; a misshapen supplied state is reported as such, with no state. */
  lemma StepErrors(pre: Option<StateValue>, emb: seq<seq<real>>, width: nat, k: nat, cap: nat,
                   p: RewardParams, knn: Knn, sqrt: real -> real)
    requires IsMatrix(emb, width) && |emb| <= cap
    requires ParamsValid(p) && KnnContract(knn) && SqrtContract(sqrt)
    requires pre.Some? ==> ValidState(pre.value)
    ensures Step(pre, emb, width, k, cap, p, knn, sqrt).Err? <==>
      || (pre.None? && !PaddingBroadcasts(k, cap, width))
      || (pre.Some? && !(|pre.value.memory| == cap && pre.value.memoryWidth == width))
      || cap == 0
      || width == 0
    ensures pre.Some? ==>
      (Step(pre, emb, width, k, cap, p, knn, sqrt) == Err(ShapeMismatch) <==>
       !(|pre.value.memory| == cap && pre.value.memoryWidth == width))
    ensures pre.None? ==>
      (Step(pre, emb, width, k, cap, p, knn, sqrt) == Err(PaddingShape) <==> !PaddingBroadcasts(k, cap, width))
  {
  }

  /** A fresh call on an empty buffer (no rows, or rows of no width) never
      fails at the padding, which then selects nothing: it fails where the
      code next stops, at the capacity (line 234) or at the width (line 265). */
  lemma EmptyBufferErrors(emb: seq<seq<real>>, width: nat, k: nat, cap: nat,
                          p: RewardParams, knn: Knn, sqrt: real -> real)
    requires IsMatrix(emb, width) && |emb| <= cap
    requires ParamsValid(p) && KnnContract(knn) && SqrtContract(sqrt)
    ensures cap == 0 ==> Step(None, emb, width, k, cap, p, knn, sqrt) == Err(ZeroCapacity)
    ensures 0 < cap && width == 0 ==> Step(None, emb, width, k, cap, p, knn, sqrt) == Err(NoFeatures)
  {
  }

  /** Everything one successful call promises about the state it returns:
      embedding i is in row (start + i) % cap, no other row changes, the cursor
      is start + M % cap (below 2 * cap, and the intended row once reduced),
      the count grows by M * K and the sum does not decrease. */
  lemma {:induction false} UpdateSpec(s: StateValue, emb: seq<seq<real>>, dists: seq<seq<real>>, cap: nat, k: nat)
    requires |s.memory| == cap > 0 && |emb| <= cap
    requires |dists| == |emb| && IsMatrix(dists, k) && AllNonNegative(dists)
    ensures var t := Update(s, emb, dists, cap);
      var start := s.nextMemoryIndex % cap;
      var idx := RingIndices(start, |emb|, cap);
      && |t.memory| == cap
      && (forall i :: 0 <= i < |emb| ==> t.memory[idx[i]] == ToRow(emb[i]))
      && (forall r :: 0 <= r < cap && (forall i :: 0 <= i < |emb| ==> idx[i] != r) ==> t.memory[r] == s.memory[r])
      && t.nextMemoryIndex == start + |emb| % cap
      && 0 <= t.nextMemoryIndex < 2 * cap
      && t.nextMemoryIndex % cap == (s.nextMemoryIndex + |emb|) % cap
      && t.distanceCount == s.distanceCount + |emb| * k
      && t.distanceSum == s.distanceSum + SumAll(dists)
      && s.distanceSum <= t.distanceSum
  {
    var start := s.nextMemoryIndex % cap;
    var idx := RingIndices(start, |emb|, cap);
    var t := Update(s, emb, dists, cap);
    forall i | 0 <= i < |emb| ensures t.memory[idx[i]] == ToRow(emb[i]) {
      InsertBatchWrites(s.memory, start, emb, i);
    }
    forall r | 0 <= r < cap && (forall i :: 0 <= i < |emb| ==> idx[i] != r) ensures t.memory[r] == s.memory[r] {
      InsertBatchKeeps(s.memory, start, emb, r);
    }
    NextIndexBounds(start, |emb|, cap);
    NextIndexEffective(start, |emb|, cap);
    ModAddLeft(s.nextMemoryIndex, |emb|, cap);
    SizeOfMatrix(dists, k);
    SumAllNonNegative(dists);
  }

  /** A successful call on a supplied state returns `Update` of it, and its
      result again has a [cap, D] memory and valid statistics, so it can be
      passed to the next call. */
  lemma StepThreadsState(s: StateValue, emb: seq<seq<real>>, width: nat, k: nat, cap: nat,
                         p: RewardParams, knn: Knn, sqrt: real -> real)
    requires IsMatrix(emb, width) && |emb| <= cap
    requires ParamsValid(p) && KnnContract(knn) && SqrtContract(sqrt)
    requires ValidState(s) && |s.memory| == cap && s.memoryWidth == width
    requires cap > 0 && width > 0
    ensures var r := Step(Some(s), emb, width, k, cap, p, knn, sqrt);
      && r.Ok?
      && r.value.1 == Update(s, emb, knn(s.memory, emb, k), cap)
      && |r.value.1.memory| == cap && r.value.1.memoryWidth == width
      && ValidState(r.value.1)
  {
    var start := s.nextMemoryIndex % cap;
    var t := Update(s, emb, knn(s.memory, emb, k), cap);
    forall r | 0 <= r < cap ensures |t.memory[r]| == width {
      InsertBatchRow(s.memory, start, emb, r);
    }
    UpdateSpec(s, emb, knn(s.memory, emb, k), cap, k);
  }

  /** The distances come from the memory before the insertion: two queries
      that agree on the pre-insertion memory give the same call result, however
      they differ on the memory the call writes. */
  lemma QueryBeforeInsert(pre: Option<StateValue>, emb: seq<seq<real>>, width: nat, k: nat, cap: nat,
                          p: RewardParams, knn1: Knn, knn2: Knn, sqrt: real -> real)
    requires IsMatrix(emb, width) && |emb| <= cap
    requires ParamsValid(p) && KnnContract(knn1) && KnnContract(knn2) && SqrtContract(sqrt)
    requires pre.Some? ==> ValidState(pre.value)
    requires Initial(pre, width, k, cap).Ok? ==>
      knn1(Initial(pre, width, k, cap).value.memory, emb, k) == knn2(Initial(pre, width, k, cap).value.memory, emb, k)
    ensures Step(pre, emb, width, k, cap, p, knn1, sqrt) == Step(pre, emb, width, k, cap, p, knn2, sqrt)
  {
  }

  /** Every reward of a successful call is 0 when its similarity exceeds the
      cap and otherwise β over it, which is at least c; with β >= 0 each reward
      lies in [0, β / c]. */
  lemma StepRewards(pre: Option<StateValue>, emb: seq<seq<real>>, width: nat, k: nat, cap: nat,
                    p: RewardParams, knn: Knn, sqrt: real -> real, i: int)
    requires IsMatrix(emb, width) && |emb| <= cap
    requires ParamsValid(p) && KnnContract(knn) && SqrtContract(sqrt)
    requires pre.Some? ==> ValidState(pre.value)
    requires Step(pre, emb, width, k, cap, p, knn, sqrt).Ok?
    requires 0 <= i < |emb|
    ensures var r := Step(pre, emb, width, k, cap, p, knn, sqrt).value;
      var s := Initial(pre, width, k, cap).value;
      var row := knn(s.memory, emb, k)[i];
      && |r.0| == |emb|
      && 0.0 <= r.1.distanceSum
      && (|row| > 0 ==> r.1.distanceCount > 0)
      && var sim := Similarity(row, r.1.distanceSum, r.1.distanceCount, p, sqrt);
      && p.constant <= sim
      && (sim > p.maxSimilarity ==> r.0[i] == 0.0)
      && (sim <= p.maxSimilarity ==> r.0[i] == p.rewardScale / sim)
      && (0.0 <= p.rewardScale ==> 0.0 <= r.0[i] <= p.rewardScale / p.constant)
  {
    var s := Initial(pre, width, k, cap).value;
    var dists := knn(s.memory, emb, k);
    var next := Update(s, emb, dists, cap);
    SizeZeroIffEmptyRows(dists);
    SumAllNonNegative(dists);
    assert Step(pre, emb, width, k, cap, p, knn, sqrt).value ==
      (Rewards(dists, next.distanceSum, next.distanceCount, p, sqrt), next);
    RewardsSpec(dists, next.distanceSum, next.distanceCount, p, sqrt, i);
  }

  // ---------------------------------------------------------------------
  // A sequence of calls.

  /** The embeddings of several batches, in insertion order. */
  function Concat(batches: seq<seq<seq<real>>>): (flat: seq<seq<real>>)
    decreases |batches|
  {
    if batches == [] then [] else Concat(batches[..|batches| - 1]) + batches[|batches| - 1]
  }

  /** Proof aid: one unfolding of `Concat`, the last batch after the others. */
  lemma ConcatSnoc(batches: seq<seq<seq<real>>>)
    requires batches != []
    ensures Concat(batches) == Concat(batches[..|batches| - 1]) + batches[|batches| - 1]
  {
  }

  /** Proof aid: distributivity, which the solver does not find unprompted here. */
  lemma MulAdd(a: int, b: int, k: int)
    ensures (a + b) * k == a * k + b * k
  {
  }

  /** Batches of m embeddings each hold n * m embeddings in all. */
  lemma {:induction false} ConcatLength(batches: seq<seq<seq<real>>>, m: nat)
    requires forall b :: b in batches ==> |b| == m
    ensures |Concat(batches)| == |batches| * m
    decreases |batches|
  {
    if batches != [] {
      var n := |batches| - 1;
      assert forall b :: b in batches[..n] ==> b in batches;
      ConcatLength(batches[..n], m);
      ConcatSnoc(batches);
      assert |batches[n]| == m by { assert batches[n] in batches; }
      MulAdd(n, 1, m);
    }
  }

  /** The state after one successful call per batch, the distances of each
      call taken from the memory that call starts from. */
  ghost function Run(s: StateValue, batches: seq<seq<seq<real>>>, k: nat, cap: nat, knn: Knn): (t: StateValue)
    requires |s.memory| == cap > 0
    requires forall b :: b in batches ==> |b| <= cap
    ensures |t.memory| == cap
    decreases |batches|
  {
    if batches == [] then s
    else
      var n := |batches| - 1;
      var prev := Run(s, batches[..n], k, cap, knn);
      Update(prev, batches[n], knn(prev.memory, batches[n], k), cap)
  }

  /** One call moves a cursor congruent to c to one congruent to c + m, in [0, 2 * cap). */
  lemma CursorStep(next: int, m: nat, cap: nat, c: int)
    requires cap > 0 && next % cap == c % cap
    ensures var n := NextIndex(StartIndex(next, cap), m, cap);
      0 <= n < 2 * cap && n % cap == (c + m) % cap
  {
    var start := StartIndex(next, cap);
    NextIndexBounds(start, m, cap);
    NextIndexEffective(start, m, cap);
    ModAddLeft(next, m, cap);
    ModAddLeft(c, m, cap);
  }

  /** One call moves a cursor congruent to c to one congruent to c plus the
      batch's size, in [0, 2 * cap). */
  lemma UpdateCursor(s: StateValue, emb: seq<seq<real>>, dists: seq<seq<real>>, cap: nat, c: int)
    requires |s.memory| == cap > 0 && |emb| <= cap
    requires s.nextMemoryIndex % cap == c % cap
    ensures var next := Update(s, emb, dists, cap).nextMemoryIndex;
      0 <= next < 2 * cap && next % cap == (c + |emb|) % cap
  {
    CursorStep(s.nextMemoryIndex, |emb|, cap, c);
  }

  /** After any number of calls the stored cursor names, once reduced, the row
      start + (embeddings inserted so far); after at least one call it is in
      [0, 2 * cap). */
  lemma {:induction false} RunCursor(s: StateValue, batches: seq<seq<seq<real>>>, k: nat, cap: nat, knn: Knn)
    requires |s.memory| == cap > 0
    requires forall b :: b in batches ==> |b| <= cap
    ensures Run(s, batches, k, cap, knn).nextMemoryIndex % cap == (s.nextMemoryIndex + |Concat(batches)|) % cap
    ensures batches != [] ==> 0 <= Run(s, batches, k, cap, knn).nextMemoryIndex < 2 * cap
    decreases |batches|
  {
    if batches != [] {
      var n := |batches| - 1;
      var prev := Run(s, batches[..n], k, cap, knn);
      var t := |Concat(batches[..n])|;
      RunCursor(s, batches[..n], k, cap, knn);
      UpdateCursor(prev, batches[n], knn(prev.memory, batches[n], k), cap, s.nextMemoryIndex + t);
      ConcatSnoc(batches);
    }
  }

  /** One call adds K to the count per embedding and does not lower the sum. */
  lemma UpdateCounters(s: StateValue, emb: seq<seq<real>>, dists: seq<seq<real>>, cap: nat, k: nat)
    requires |s.memory| == cap > 0 && |emb| <= cap
    requires |dists| == |emb| && IsMatrix(dists, k) && AllNonNegative(dists)
    ensures Update(s, emb, dists, cap).distanceCount == s.distanceCount + |emb| * k
    ensures s.distanceSum <= Update(s, emb, dists, cap).distanceSum
  {
    SizeOfMatrix(dists, k);
    SumAllNonNegative(dists);
  }

  /** One more call adds K to the count per embedding of its batch. */
  lemma RunCountLast(s: StateValue, batches: seq<seq<seq<real>>>, k: nat, cap: nat, knn: Knn)
    requires |s.memory| == cap > 0 && batches != []
    requires forall b :: b in batches ==> |b| <= cap
    requires KnnContract(knn)
    ensures Run(s, batches, k, cap, knn).distanceCount ==
      Run(s, batches[..|batches| - 1], k, cap, knn).distanceCount + |batches[|batches| - 1]| * k
  {
    var n := |batches| - 1;
    assert forall c :: c in batches[..n] ==> c in batches;
    var prev := Run(s, batches[..n], k, cap, knn);
    UpdateCounters(prev, batches[n], knn(prev.memory, batches[n], k), cap, k);
  }

  /** Proof aid: a count that grew by a * k and then by m * k grew by l * k,
      for l == a + m. */
  lemma CountGrowth(c0: int, prev: int, count: int, a: nat, m: nat, l: nat, k: nat)
    requires prev == c0 + a * k && count == prev + m * k && l == a + m
    ensures count == c0 + l * k
  {
    MulAdd(a, m, k);
  }

  /** The inductive step of `RunCount`: if the count has grown by K per
      embedding before the last batch, it has after it too. */
  lemma RunCountStep(s: StateValue, batches: seq<seq<seq<real>>>, k: nat, cap: nat, knn: Knn)
    requires |s.memory| == cap > 0 && batches != []
    requires forall b :: b in batches ==> |b| <= cap
    requires KnnContract(knn)
    requires var prefix := batches[..|batches| - 1];
      Run(s, prefix, k, cap, knn).distanceCount == s.distanceCount + |Concat(prefix)| * k
    ensures Run(s, batches, k, cap, knn).distanceCount == s.distanceCount + |Concat(batches)| * k
  {
    var n := |batches| - 1;
    RunCountLast(s, batches, k, cap, knn);
    assert |Concat(batches)| == |Concat(batches[..n])| + |batches[n]| by { ConcatSnoc(batches); }
    CountGrowth(s.distanceCount, Run(s, batches[..n], k, cap, knn).distanceCount,
      Run(s, batches, k, cap, knn).distanceCount, |Concat(batches[..n])|, |batches[n]|, |Concat(batches)|, k);
  }

  /** After any number of calls the count has grown by K per embedding. */
  lemma {:induction false} RunCount(s: StateValue, batches: seq<seq<seq<real>>>, k: nat, cap: nat, knn: Knn)
    requires |s.memory| == cap > 0
    requires forall b :: b in batches ==> |b| <= cap
    requires KnnContract(knn)
    ensures Run(s, batches, k, cap, knn).distanceCount == s.distanceCount + |Concat(batches)| * k
    decreases |batches|
  {
    if batches != [] {
      var n := |batches| - 1;
      assert forall c :: c in batches[..n] ==> c in batches;
      RunCount(s, batches[..n], k, cap, knn);
      RunCountStep(s, batches, k, cap, knn);
    }
  }

  /** After any number of calls the sum has not decreased. */
  lemma {:induction false} RunSum(s: StateValue, batches: seq<seq<seq<real>>>, k: nat, cap: nat, knn: Knn)
    requires |s.memory| == cap > 0
    requires forall b :: b in batches ==> |b| <= cap
    requires KnnContract(knn)
    ensures s.distanceSum <= Run(s, batches, k, cap, knn).distanceSum
    decreases |batches|
  {
    if batches != [] {
      var n := |batches| - 1;
      var prev := Run(s, batches[..n], k, cap, knn);
      var b := batches[n];
      assert forall c :: c in batches[..n] ==> c in batches;
      RunSum(s, batches[..n], k, cap, knn);
      UpdateCounters(prev, b, knn(prev.memory, b, k), cap, k);
    }
  }

  /** After any number of calls the count has grown by K per embedding and the
      sum has not decreased. */
  lemma RunCounters(s: StateValue, batches: seq<seq<seq<real>>>, k: nat, cap: nat, knn: Knn)
    requires |s.memory| == cap > 0
    requires forall b :: b in batches ==> |b| <= cap
    requires KnnContract(knn)
    ensures Run(s, batches, k, cap, knn).distanceCount == s.distanceCount + |Concat(batches)| * k
    ensures s.distanceSum <= Run(s, batches, k, cap, knn).distanceSum
  {
    RunCount(s, batches, k, cap, knn);
    RunSum(s, batches, k, cap, knn);
  }

  /** The position in the stream of embeddings of the last one written to row
      r, when the stream of t embeddings started at cursor c (negative: none). */
  function LastWriter(r: int, c: int, t: int, cap: nat): int
    requires cap > 0
  {
    t - 1 - (c + t - 1 - r) % cap
  }

  /** How a batch of m embeddings, written from the reduced cursor, moves the
      last writer of a row. */
  lemma LastWriterStep(r: int, c: int, t: nat, m: nat, start: int, cap: nat)
    requires 0 <= r < cap && m <= cap
    requires start == (c + t) % cap
    ensures var o := (r - start) % cap;
      && (o < m ==> LastWriter(r, c, t + m, cap) == t + o)
      && (o >= m ==> LastWriter(r, c, t + m, cap) == LastWriter(r, c, t, cap))
  {
    var o := (r - start) % cap;
    var k1 := (c + t) / cap;
    var q := (r - start) / cap;
    assert c + t == k1 * cap + start;
    assert r - start == q * cap + o;
    var x' := c + (t + m) - 1 - r;
    if o < m {
      assert x' == (k1 - q) * cap + (m - 1 - o);
      ModUnique(x', k1 - q, m - 1 - o, cap);
    } else {
      var x := c + t - 1 - r;
      assert x' == (k1 - q - 1) * cap + (cap + m - 1 - o);
      assert x == (k1 - q - 1) * cap + (cap - 1 - o);
      ModUnique(x', k1 - q - 1, cap + m - 1 - o, cap);
      ModUnique(x, k1 - q - 1, cap - 1 - o, cap);
    }
  }

  /** One more batch, written from the cursor the stream has reached, keeps
      row r holding the last embedding of the stream sent to it. */
  lemma UpdateLastWriter(prev: StateValue, b: seq<seq<real>>, dists: seq<seq<real>>, cap: nat,
                         orig: seq<Value>, flat: seq<seq<real>>, c: int, r: int)
    requires |prev.memory| == cap > 0 && |b| <= cap
    requires 0 <= r < cap
    requires prev.nextMemoryIndex % cap == (c + |flat|) % cap
    requires var j := LastWriter(r, c, |flat|, cap);
      prev.memory[r] == if 0 <= j then ToRow(flat[j]) else orig
    ensures var j := LastWriter(r, c, |flat + b|, cap);
      && j < |flat + b|
      && Update(prev, b, dists, cap).memory[r] == if 0 <= j then ToRow((flat + b)[j]) else orig
  {
    var t := |flat|;
    var start := StartIndex(prev.nextMemoryIndex, cap);
    InsertBatchRow(prev.memory, start, b, r);
    LastWriterStep(r, c, t, |b|, start, cap);
    var o := (r - start) % cap;
    if o < |b| {
      assert (flat + b)[t + o] == b[o];
    } else {
      var j := LastWriter(r, c, t, cap);
      if 0 <= j {
        assert (flat + b)[j] == flat[j];
      }
    }
  }

  /** Row r after any number of calls holds the last embedding of the stream
      that was written to it, or its original content if none was. */
  lemma {:induction false} RunMemory(s: StateValue, batches: seq<seq<seq<real>>>, k: nat, cap: nat, knn: Knn, r: int)
    requires |s.memory| == cap > 0
    requires forall b :: b in batches ==> |b| <= cap
    requires 0 <= r < cap
    ensures var j := LastWriter(r, s.nextMemoryIndex, |Concat(batches)|, cap);
      && j < |Concat(batches)|
      && Run(s, batches, k, cap, knn).memory[r] == if 0 <= j then ToRow(Concat(batches)[j]) else s.memory[r]
    decreases |batches|
  {
    if batches != [] {
      var n := |batches| - 1;
      var prev := Run(s, batches[..n], k, cap, knn);
      var b := batches[n];
      assert forall c :: c in batches[..n] ==> c in batches;
      RunMemory(s, batches[..n], k, cap, knn, r);
      RunCursor(s, batches[..n], k, cap, knn);
      ConcatSnoc(batches);
      UpdateLastWriter(prev, b, knn(prev.memory, b, k), cap, s.memory[r], Concat(batches[..n]), s.nextMemoryIndex, r);
    }
  }

  /** Embedding j of the last cap of a stream of t, started at cursor c, is
      the last one written to row (c + j) % cap. */
  lemma LastWriterOfRecent(c: int, t: int, j: int, cap: nat)
    requires cap > 0 && 0 <= j < t && t - cap <= j
    ensures LastWriter((c + j) % cap, c, t, cap) == j
  {
    var r := (c + j) % cap;
    var q := (c + j) / cap;
    assert c + t - 1 - r == q * cap + (t - 1 - j);
    ModUnique(c + t - 1 - r, q, t - 1 - j, cap);
  }

  /** A row with a last writer j is the row embedding j was sent to. */
  lemma LastWriterRow(r: int, c: int, t: nat, cap: nat)
    requires 0 <= r < cap
    ensures var j := LastWriter(r, c, t, cap);
      j < t && (0 <= j ==> RingIndices(c, t, cap)[j] == r)
  {
    var j := LastWriter(r, c, t, cap);
    if 0 <= j {
      var x := c + t - 1 - r;
      assert c + j == (x / cap) * cap + r;
      ModUnique(c + j, x / cap, r, cap);
    }
  }

  /** No embedding after a row's last writer is sent to that row. */
  lemma LastWriterIsLast(r: int, c: int, t: nat, cap: nat, j: int)
    requires 0 <= r < cap && 0 <= j < t && LastWriter(r, c, t, cap) < j
    ensures RingIndices(c, t, cap)[j] != r
  {
    if RingIndices(c, t, cap)[j] == r {
      var q := (c + j) / cap;
      assert c + j == q * cap + r;
      ModUnique(c + t - 1 - r, q, t - 1 - j, cap);
    }
  }

  /** The ring buffer holds the most recent embeddings: each of the last cap
      of the stream is in row (c + j) % cap, where c is the starting cursor. */
  lemma RunKeepsMostRecent(s: StateValue, batches: seq<seq<seq<real>>>, k: nat, cap: nat, knn: Knn)
    requires |s.memory| == cap > 0
    requires forall b :: b in batches ==> |b| <= cap
    ensures var flat := Concat(batches);
      var idx := RingIndices(s.nextMemoryIndex, |flat|, cap);
      forall j :: 0 <= j < |flat| && |flat| - cap <= j ==>
        Run(s, batches, k, cap, knn).memory[idx[j]] == ToRow(flat[j])
  {
    var flat := Concat(batches);
    var idx := RingIndices(s.nextMemoryIndex, |flat|, cap);
    forall j | 0 <= j < |flat| && |flat| - cap <= j
      ensures Run(s, batches, k, cap, knn).memory[idx[j]] == ToRow(flat[j])
    {
      LastWriterOfRecent(s.nextMemoryIndex, |flat|, j, cap);
      RunMemory(s, batches, k, cap, knn, idx[j]);
    }
  }

  /** No embedding of a stream of t, started at cursor c, is sent to row r. */
  predicate NeverSent(c: int, t: nat, cap: nat, r: int)
    requires cap > 0
  {
    forall j :: 0 <= j < t ==> RingIndices(c, t, cap)[j] != r
  }

  /** A row has no last writer exactly when no embedding of the stream was
      sent to it. */
  lemma LastWriterNoneIffNeverSent(r: int, c: int, t: nat, cap: nat)
    requires 0 <= r < cap
    ensures LastWriter(r, c, t, cap) < 0 <==> NeverSent(c, t, cap, r)
  {
    LastWriterRow(r, c, t, cap);
    if LastWriter(r, c, t, cap) < 0 {
      forall j | 0 <= j < t
        ensures RingIndices(c, t, cap)[j] != r
      {
        LastWriterIsLast(r, c, t, cap, j);
      }
    }
  }

  /** A row that no embedding of the stream was sent to keeps its content. */
  lemma RunKeepsUntouchedRow(s: StateValue, batches: seq<seq<seq<real>>>, k: nat, cap: nat, knn: Knn, r: int)
    requires |s.memory| == cap > 0
    requires forall b :: b in batches ==> |b| <= cap
    requires 0 <= r < cap && NeverSent(s.nextMemoryIndex, |Concat(batches)|, cap, r)
    ensures Run(s, batches, k, cap, knn).memory[r] == s.memory[r]
  {
    var t := |Concat(batches)|;
    LastWriterRow(r, s.nextMemoryIndex, t, cap);
    assert LastWriter(r, s.nextMemoryIndex, t, cap) < 0;
    RunMemory(s, batches, k, cap, knn, r);
  }

  /** No row that the stream never names changes, across any number of calls. */
  lemma RunKeepsUntouched(s: StateValue, batches: seq<seq<seq<real>>>, k: nat, cap: nat, knn: Knn)
    requires |s.memory| == cap > 0
    requires forall b :: b in batches ==> |b| <= cap
    ensures forall r :: 0 <= r < cap && NeverSent(s.nextMemoryIndex, |Concat(batches)|, cap, r) ==>
      Run(s, batches, k, cap, knn).memory[r] == s.memory[r]
  {
    forall r | 0 <= r < cap && NeverSent(s.nextMemoryIndex, |Concat(batches)|, cap, r)
      ensures Run(s, batches, k, cap, knn).memory[r] == s.memory[r]
    {
      RunKeepsUntouchedRow(s, batches, k, cap, knn, r);
    }
  }

  /** From a fresh state, after n calls of m <= cap embeddings each, the next
      insertion starts at row (n * m) % cap, the count is n * m * K and the sum
      is non-negative. */
  lemma FreshRun(cap: nat, width: nat, k: nat, batches: seq<seq<seq<real>>>, m: nat, knn: Knn)
    requires 0 < cap && PaddingBroadcasts(k, cap, width) && m <= cap
    requires forall b :: b in batches ==> |b| == m
    requires KnnContract(knn)
    ensures var t := Run(FreshState(cap, width, k), batches, k, cap, knn);
      && StartIndex(t.nextMemoryIndex, cap) == (|batches| * m) % cap
      && t.distanceCount == |batches| * m * k
      && 0.0 <= t.distanceSum
  {
    var s := FreshState(cap, width, k);
    assert s.nextMemoryIndex == 0 && s.distanceCount == 0 && s.distanceSum == 0.0;
    assert |s.memory| == cap by { FreshStateLayout(cap, width, k); }
    ConcatLength(batches, m);
    var flat := |Concat(batches)|;
    var t := Run(s, batches, k, cap, knn);
    RunCursor(s, batches, k, cap, knn);
    RunCounters(s, batches, k, cap, knn);
    assert t.nextMemoryIndex % cap == flat % cap;
    assert t.distanceCount == flat * k;
  }

  /** The first call, given no state, is the call given the fresh state. */
  lemma FirstCall(emb: seq<seq<real>>, width: nat, k: nat, cap: nat,
                  p: RewardParams, knn: Knn, sqrt: real -> real)
    requires IsMatrix(emb, width) && |emb| <= cap
    requires ParamsValid(p) && KnnContract(knn) && SqrtContract(sqrt)
    requires PaddingBroadcasts(k, cap, width)
    ensures ValidState(FreshState(cap, width, k))
    ensures Step(None, emb, width, k, cap, p, knn, sqrt)
         == Step(Some(FreshState(cap, width, k)), emb, width, k, cap, p, knn, sqrt)
  {
    FreshStateLayout(cap, width, k);
  }

  /** The state after one call per batch, as a caller threads it: the first
      call is given no state, each later call the state the previous one
      returned; the first failure is the result. */
  ghost function Calls(batches: seq<seq<seq<real>>>, width: nat, k: nat, cap: nat,
                       p: RewardParams, knn: Knn, sqrt: real -> real): (r: Result<StateValue>)
    requires batches != []
    requires forall b :: b in batches ==> IsMatrix(b, width) && |b| <= cap
    requires ParamsValid(p) && KnnContract(knn) && SqrtContract(sqrt)
    ensures r.Ok? ==> ValidState(r.value) && |r.value.memory| == cap && r.value.memoryWidth == width
    decreases |batches|
  {
    var n := |batches| - 1;
    var b := batches[n];
    assert b in batches;
    if n == 0 then
      match Step(None, b, width, k, cap, p, knn, sqrt)
      case Err(e) => Err(e)
      case Ok(out) =>
        StepErrors(None, b, width, k, cap, p, knn, sqrt);
        FirstCall(b, width, k, cap, p, knn, sqrt);
        FreshStateLayout(cap, width, k);
        StepThreadsState(FreshState(cap, width, k), b, width, k, cap, p, knn, sqrt);
        Ok(out.1)
    else
      assert forall c :: c in batches[..n] ==> c in batches;
      match Calls(batches[..n], width, k, cap, p, knn, sqrt)
      case Err(e) => Err(e)
      case Ok(s) =>
        match Step(Some(s), b, width, k, cap, p, knn, sqrt)
        case Err(e) => Err(e)
        case Ok(out) =>
          StepErrors(Some(s), b, width, k, cap, p, knn, sqrt);
          StepThreadsState(s, b, width, k, cap, p, knn, sqrt);
          Ok(out.1)
  }

  /** Proof aid: one unfolding of `Calls` after the first call. */
  lemma CallsSnoc(batches: seq<seq<seq<real>>>, width: nat, k: nat, cap: nat,
                  p: RewardParams, knn: Knn, sqrt: real -> real, prev: StateValue)
    requires |batches| > 1
    requires forall b :: b in batches ==> IsMatrix(b, width) && |b| <= cap
    requires ParamsValid(p) && KnnContract(knn) && SqrtContract(sqrt)
    requires forall c :: c in batches[..|batches| - 1] ==> IsMatrix(c, width) && |c| <= cap
    requires Calls(batches[..|batches| - 1], width, k, cap, p, knn, sqrt) == Ok(prev)
    requires Step(Some(prev), batches[|batches| - 1], width, k, cap, p, knn, sqrt).Ok?
    ensures Calls(batches, width, k, cap, p, knn, sqrt)
         == Ok(Step(Some(prev), batches[|batches| - 1], width, k, cap, p, knn, sqrt).value.1)
  {
  }

  /** Threading each call's returned state into the next call, from no state,
      never fails when cap > 0, D > 0 and the padding broadcasts, and leaves
      exactly the state `Run` gives from the fresh state. */
  lemma {:induction false} CallsAreRun(batches: seq<seq<seq<real>>>, width: nat, k: nat, cap: nat,
                                       p: RewardParams, knn: Knn, sqrt: real -> real)
    requires batches != []
    requires forall b :: b in batches ==> IsMatrix(b, width) && |b| <= cap
    requires ParamsValid(p) && KnnContract(knn) && SqrtContract(sqrt)
    requires 0 < cap && 0 < width && PaddingBroadcasts(k, cap, width)
    ensures |FreshState(cap, width, k).memory| == cap
    ensures Calls(batches, width, k, cap, p, knn, sqrt) == Ok(Run(FreshState(cap, width, k), batches, k, cap, knn))
    decreases |batches|
  {
    var f := FreshState(cap, width, k);
    FreshStateLayout(cap, width, k);
    var n := |batches| - 1;
    var b := batches[n];
    assert b in batches;
    if n == 0 {
      assert batches[..0] == [];
      FirstCall(b, width, k, cap, p, knn, sqrt);
      StepThreadsState(f, b, width, k, cap, p, knn, sqrt);
    } else {
      var prefix := batches[..n];
      assert forall c :: c in prefix ==> c in batches;
      CallsAreRun(prefix, width, k, cap, p, knn, sqrt);
      var prev := Run(f, prefix, k, cap, knn);
      assert Run(f, batches, k, cap, knn) == Update(prev, b, knn(prev.memory, b, k), cap);
      assert Calls(prefix, width, k, cap, p, knn, sqrt) == Ok(prev);
      StepThreadsState(prev, b, width, k, cap, p, knn, sqrt);
      CallsSnoc(batches, width, k, cap, p, knn, sqrt, prev);
    }
  }

}
