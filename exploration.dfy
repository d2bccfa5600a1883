/** `IntrinsicRewardState` (rlax/_src/exploration.py, lines 147-152) as a class
    over a 2-D buffer, and `episodic_memory_intrinsic_rewards` (lines 155-279)
    as a method that builds the state it returns and is proved to compute what
    `EpisodicMemory.Step` specifies. */
module Exploration {
  import opened Memory
  import opened Reward
  import opened EpisodicMemory

  /** The cells of a 2-D buffer, row by row. */
  function Rows(a: array2<Value>): (rows: seq<seq<Value>>)
    reads a
    ensures |rows| == a.Length0 && IsMatrix(rows, a.Length1)
    ensures forall i, j :: 0 <= i < a.Length0 && 0 <= j < a.Length1 ==> rows[i][j] == a[i, j]
  {
    seq(a.Length0, i requires 0 <= i < a.Length0 reads a =>
      seq(a.Length1, j requires 0 <= j < a.Length1 reads a => a[i, j]))
  }

  /** A buffer is the matrix that agrees with it cell by cell. */
  lemma RowsEqual(a: array2<Value>, m: seq<seq<Value>>)
    requires |m| == a.Length0 && IsMatrix(m, a.Length1)
    requires forall i, j :: 0 <= i < a.Length0 && 0 <= j < a.Length1 ==> m[i][j] == a[i, j]
    ensures Rows(a) == m
  {
    forall i | 0 <= i < |m|
      ensures Rows(a)[i] == m[i]
    {
    }
  }

  /** The state threaded through the calls: the memory buffer, the stored
      cursor and the running sum and count of squared distances. */
  class IntrinsicRewardState {
    var memory: array2<Value>
    var nextMemoryIndex: int
    var distanceSum: real
    var distanceCount: int

    /** The dataclass constructor, with its defaults 0, 0.0 and 0. */
    constructor (memory: array2<Value>, nextMemoryIndex: int := 0, distanceSum: real := 0.0, distanceCount: int := 0)
      ensures this.memory == memory && this.nextMemoryIndex == nextMemoryIndex
      ensures this.distanceSum == distanceSum && this.distanceCount == distanceCount
    {
      this.memory := memory;
      this.nextMemoryIndex := nextMemoryIndex;
      this.distanceSum := distanceSum;
      this.distanceCount := distanceCount;
    }

    /** The fields as a value. */
    function View(): (v: StateValue)
      reads this, memory
      ensures |v.memory| == memory.Length0 && v.memoryWidth == memory.Length1
      ensures IsMatrix(v.memory, v.memoryWidth)
    {
      StateValue(Rows(memory), memory.Length1, nextMemoryIndex, distanceSum, distanceCount)
    }

    /** `memory.at[:k, :].set(jnp.zeros((k, D)))` (lines 218-221), written into
        the buffer: the first min(k, rows) rows become zeros. */
    method PadWithZeros(k: nat)
      requires PaddingBroadcasts(k, memory.Length0, memory.Length1)
      modifies memory
      ensures Rows(memory) == SetLeadingRows(old(Rows(memory)), Filled(k, memory.Length1, Finite(0.0)), memory.Length1)
    {
      ghost var before := Rows(memory);
      var zeros := Filled(1, memory.Length1, Finite(0.0))[0];
      var n := if k <= memory.Length0 then k else 0;
      var i := 0;
      while i < n
        invariant 0 <= i <= n
        invariant Rows(memory) == Filled(i, memory.Length1, Finite(0.0)) + before[i..]
      {
        WriteRow(memory, i, zeros);
        FillOneMore(before, i, memory.Length1, Finite(0.0));
        i := i + 1;
      }
      if k > memory.Length0 {
        assert before[0..] == before;
      }
    }
  }

  /** Proof aid: overwriting row i of `i` filled rows followed by the rest of
      `rows` gives one more filled row. */
  lemma FillOneMore(rows: seq<seq<Value>>, i: nat, width: nat, v: Value)
    requires i < |rows|
    ensures Filled(i + 1, width, v) + rows[i + 1..] == (Filled(i, width, v) + rows[i..])[i := Filled(1, width, v)[0]]
  {
    var lhs := Filled(i + 1, width, v) + rows[i + 1..];
    var rhs := (Filled(i, width, v) + rows[i..])[i := Filled(1, width, v)[0]];
    assert |lhs| == |rhs|;
    forall j | 0 <= j < |lhs|
      ensures lhs[j] == rhs[j]
    {
      if j > i {
        assert lhs[j] == rows[j] && rhs[j] == rows[j];
      }
    }
  }

  /** Row `row` of the buffer is overwritten with `cells`, cell by cell. */
  method WriteRow(a: array2<Value>, row: nat, cells: seq<Value>)
    requires row < a.Length0 && |cells| == a.Length1
    modifies a
    ensures Rows(a) == old(Rows(a))[row := cells]
  {
    ghost var before := Rows(a);
    var j := 0;
    while j < a.Length1
      invariant 0 <= j <= a.Length1
      invariant forall r, c :: 0 <= r < a.Length0 && 0 <= c < a.Length1 ==>
        a[r, c] == if r == row && c < j then cells[c] else before[r][c]
    {
      a[row, j] := cells[j];
      j := j + 1;
    }
    RowsEqual(a, before[row := cells]);
  }

  /** The state of lines 214-221: a [cap, width] buffer of `+inf` with its
      first k rows zeroed, and the counters at their defaults; the padding
      fails to broadcast when k > cap and k != 1. */
  method NewState(cap: nat, width: nat, k: nat) returns (r: Result<IntrinsicRewardState>)
    ensures r.Err? <==> !PaddingBroadcasts(k, cap, width)
    ensures r.Err? ==> r.error == PaddingShape
    ensures r.Ok? ==> fresh(r.value) && fresh(r.value.memory) && r.value.View() == FreshState(cap, width, k)
  {
    if !PaddingBroadcasts(k, cap, width) {
      return Err(PaddingShape);
    }
    var buffer := new Value[cap, width]((_, _) => Inf);
    RowsEqual(buffer, Filled(cap, width, Inf));
    var s := new IntrinsicRewardState(buffer);
    s.PadWithZeros(k);
    return Ok(s);
  }

  /** A new buffer with the same cells: `.at[...].set` leaves its operand as
      it was. */
  method CopyBuffer(a: array2<Value>) returns (b: array2<Value>)
    ensures fresh(b) && b.Length0 == a.Length0 && b.Length1 == a.Length1
    ensures Rows(b) == Rows(a)
  {
    b := new Value[a.Length0, a.Length1]((i, j) reads a => if 0 <= i < a.Length0 && 0 <= j < a.Length1 then a[i, j] else Inf);
    RowsEqual(b, Rows(a));
  }

  /** `memory.at[indices].set(embeddings)` with indices (arange(M) + start) %
      rows (lines 233-236), written row after row into the buffer. */
  method InsertRows(a: array2<Value>, start: int, emb: seq<seq<real>>)
    requires 0 < a.Length0 && |emb| <= a.Length0 && IsMatrix(emb, a.Length1)
    modifies a
    ensures Rows(a) == InsertBatch(old(Rows(a)), start, emb)
  {
    var cap := a.Length0;
    ghost var mem0 := Rows(a);
    ghost var idx := RingIndices(start, |emb|, cap);
    ghost var upd := BatchRows(emb);
    var i := 0;
    assert idx[..0] == [] && upd[..0] == [];
    while i < |emb|
      invariant 0 <= i <= |emb|
      invariant Rows(a) == Scatter(mem0, idx[..i], upd[..i])
    {
      var row := (i + start) % cap;
      WriteRow(a, row, ToRow(emb[i]));
      assert idx[..i + 1][..i] == idx[..i] && upd[..i + 1][..i] == upd[..i];
      i := i + 1;
    }
    assert idx[..|emb|] == idx && upd[..|emb|] == upd;
  }

  /** `episodic_memory_intrinsic_rewards`: the rewards of the batch and a new
      state; the supplied state, if any, is left as it was.  The result is the
      one `EpisodicMemory.Step` specifies for the supplied state's fields. */
  method EpisodicMemoryIntrinsicRewards(
      embeddings: seq<seq<real>>, featureDim: nat, numNeighbors: nat, rewardScale: real,
      knn: Knn, sqrt: real -> real,
      intrinsicRewardState: IntrinsicRewardState? := null,
      constant: real := 0.001, epsilon: real := 0.0001, clusterDistance: real := 0.008,
      maxSimilarity: real := 8.0, maxMemorySize: nat := DefaultMaxMemorySize)
    returns (r: Result<(seq<real>, IntrinsicRewardState)>)
    requires IsMatrix(embeddings, featureDim) && |embeddings| <= maxMemorySize
    requires constant > 0.0 && epsilon > 0.0
    requires KnnContract(knn) && SqrtContract(sqrt)
    requires intrinsicRewardState != null ==>
      0.0 <= intrinsicRewardState.distanceSum && 0 <= intrinsicRewardState.distanceCount
    ensures var p := RewardParams(rewardScale, constant, epsilon, clusterDistance, maxSimilarity);
      var pre := if intrinsicRewardState == null then None else Some(intrinsicRewardState.View());
      var spec := Step(pre, embeddings, featureDim, numNeighbors, maxMemorySize, p, knn, sqrt);
      && r.Ok? == spec.Ok?
      && (r.Err? ==> spec == Err(r.error))
      && (r.Ok? ==> fresh(r.value.1) && fresh(r.value.1.memory) && spec.value == (r.value.0, r.value.1.View()))
  {
    var p := RewardParams(rewardScale, constant, epsilon, clusterDistance, maxSimilarity);
    ghost var pre := if intrinsicRewardState == null then None else Some(intrinsicRewardState.View());
    var state: IntrinsicRewardState;
    if intrinsicRewardState == null {
      var made := NewState(maxMemorySize, featureDim, numNeighbors);
      if made.Err? {
        return Err(made.error);
      }
      state := made.value;
    } else {
      if intrinsicRewardState.memory.Length0 != maxMemorySize || intrinsicRewardState.memory.Length1 != featureDim {
        return Err(ShapeMismatch);
      }
      state := intrinsicRewardState;
    }
    ghost var s := state.View();
    assert state.memory.Length0 == maxMemorySize && state.memory.Length1 == featureDim by {
      if intrinsicRewardState == null {
        FreshStateLayout(maxMemorySize, featureDim, numNeighbors);
      }
    }
    assert Initial(pre, featureDim, numNeighbors, maxMemorySize) == Ok(s);
    var rows := Rows(state.memory);
    var dists := knn(rows, embeddings, numNeighbors);
    if maxMemorySize == 0 {
      return Err(ZeroCapacity);
    }
    var startIndex := StartIndex(state.nextMemoryIndex, maxMemorySize);
    var memory := CopyBuffer(state.memory);
    InsertRows(memory, startIndex, embeddings);
    var distanceSum := state.distanceSum + SumAll(dists);
    var distanceCount := state.distanceCount + Size(dists);
    if featureDim == 0 {
      return Err(NoFeatures);
    }
    SizeZeroIffEmptyRows(dists);
    SumAllNonNegative(dists);
    var rewards := Rewards(dists, distanceSum, distanceCount, p, sqrt);
    var next := new IntrinsicRewardState(memory, NextIndex(startIndex, |embeddings|, maxMemorySize), distanceSum, distanceCount);
    assert state.View() == s;
    assert Rows(memory) == InsertBatch(s.memory, startIndex, embeddings);
    assert next.View() == Update(s, embeddings, dists, maxMemorySize);
    return Ok((rewards, next));
  }
}
