/** The episodic memory buffer as a value: a [rows, width] array of cells, its
    initial layout, the ring-buffer insertion and the insertion cursor
    (rlax/_src/exploration.py, lines 213-236 and 277). */
module Memory {
  import opened ModArith

  /** One cell of the memory buffer: a finite coordinate or the `+inf`
      sentinel the buffer is filled with before anything is stored. */
  datatype Value = Inf | Finite(x: real)

  /** `rows` is a rectangular [|rows|, width] array. */
  predicate IsMatrix<T>(rows: seq<seq<T>>, width: nat)
  {
    forall i :: 0 <= i < |rows| ==> |rows[i]| == width
  }

  /** An [n, width] array whose every cell is `v` (`jnp.inf * jnp.ones(...)`,
      `jnp.zeros(...)`). */
  function Filled(n: nat, width: nat, v: Value): (m: seq<seq<Value>>)
    ensures |m| == n && IsMatrix(m, width)
  {
    seq(n, _ => seq(width, _ => v))
  }

  /** An embedding as a row of memory cells. */
  function ToRow(e: seq<real>): (row: seq<Value>)
    ensures |row| == |e|
  {
    seq(|e|, j requires 0 <= j < |e| => Finite(e[j]))
  }

  /** A k-row padding can be written over the first min(k, n) rows of an
      [n, width] buffer: broadcasting lets the row axis of the update be k == n'
      (the rows the slice selects) or 1, and JAX's scatter returns its operand
      as it is, without looking at the update, when the selected slice is
      empty (n == 0 or width == 0). */
  predicate PaddingBroadcasts(k: nat, n: nat, width: nat)
  {
    k <= n || k == 1 || n == 0 || width == 0
  }

  /** `mem.at[:k, :].set(padding)` for a k-row `padding`: the slice `:k`
      selects min(k, |mem|) rows; a k beyond |mem| is only allowed when that
      slice is empty or k == 1 with no rows, and leaves the buffer as it was. */
  function SetLeadingRows(mem: seq<seq<Value>>, padding: seq<seq<Value>>, width: nat): (r: seq<seq<Value>>)
    requires IsMatrix(mem, width) && PaddingBroadcasts(|padding|, |mem|, width)
    ensures |r| == |mem|
  {
    if |padding| <= |mem| then padding + mem[|padding|..] else mem
  }

  /** The memory of a state built on the first call: `max_memory_size` rows of
      `+inf`, then the first `num_neighbors` rows overwritten with zeros. */
  function FreshMemory(cap: nat, width: nat, k: nat): seq<seq<Value>>
    requires PaddingBroadcasts(k, cap, width)
  {
    SetLeadingRows(Filled(cap, width, Inf), Filled(k, width, Finite(0.0)), width)
  }

  /** The fresh buffer is [cap, width]; row r is all zeros when r < k and all
      `+inf` otherwise. */
  lemma FreshMemoryLayout(cap: nat, width: nat, k: nat)
    requires PaddingBroadcasts(k, cap, width)
    ensures |FreshMemory(cap, width, k)| == cap
    ensures IsMatrix(FreshMemory(cap, width, k), width)
    ensures forall r, c :: 0 <= r < cap && 0 <= c < width ==>
      FreshMemory(cap, width, k)[r][c] == if r < k then Finite(0.0) else Inf
  {
  }

  /** `(jnp.arange(m) + start) % cap`: the rows a batch of m embeddings is
      written to. */
  function RingIndices(start: int, m: nat, cap: nat): (idx: seq<int>)
    requires cap > 0
    ensures |idx| == m
    ensures forall i :: 0 <= i < m ==> 0 <= idx[i] < cap
  {
    seq(m, i => (i + start) % cap)
  }

  /** At most `cap` consecutive ring indices are pairwise distinct. */
  lemma RingIndicesDistinct(start: int, m: nat, cap: nat)
    requires 0 < cap && m <= cap
    ensures forall i, j :: 0 <= i < j < m ==> RingIndices(start, m, cap)[i] != RingIndices(start, m, cap)[j]
  {
    forall i, j | 0 <= i < j < m
      ensures RingIndices(start, m, cap)[i] != RingIndices(start, m, cap)[j]
    {
      if (i + start) % cap == (j + start) % cap {
        SameResidue(j + start, i + start, cap);
        ModSmall(j - i, cap);
      }
    }
  }

  /** `mem.at[idx].set(upd)`: the updates written one after another, in index
      order. */
  function Scatter<T>(mem: seq<T>, idx: seq<int>, upd: seq<T>): (r: seq<T>)
    requires |idx| == |upd|
    requires forall i :: 0 <= i < |idx| ==> 0 <= idx[i] < |mem|
    ensures |r| == |mem|
    decreases |idx|
  {
    if idx == [] then mem
    else
      var n := |idx| - 1;
      Scatter(mem, idx[..n], upd[..n])[idx[n] := upd[n]]
  }

  /** With pairwise distinct indices, the order of the writes does not matter:
      row idx[i] holds upd[i], and a row no index names keeps its value. */
  lemma {:induction false} ScatterDistinct<T>(mem: seq<T>, idx: seq<int>, upd: seq<T>, r: int)
    requires |idx| == |upd|
    requires forall i :: 0 <= i < |idx| ==> 0 <= idx[i] < |mem|
    requires forall i, j :: 0 <= i < j < |idx| ==> idx[i] != idx[j]
    requires 0 <= r < |mem|
    ensures forall i :: 0 <= i < |idx| && idx[i] == r ==> Scatter(mem, idx, upd)[r] == upd[i]
    ensures (forall i :: 0 <= i < |idx| ==> idx[i] != r) ==> Scatter(mem, idx, upd)[r] == mem[r]
    decreases |idx|
  {
    if idx != [] {
      var n := |idx| - 1;
      ScatterDistinct(mem, idx[..n], upd[..n], r);
    }
  }

  /** The ring-buffer insertion of lines 233-236: embedding i goes to row
      (start + i) % |mem|. */
  function InsertBatch(mem: seq<seq<Value>>, start: int, emb: seq<seq<real>>): (r: seq<seq<Value>>)
    requires 0 < |mem| && |emb| <= |mem|
    ensures |r| == |mem|
  {
    Scatter(mem, RingIndices(start, |emb|, |mem|), BatchRows(emb))
  }

  /** The updates of a batch: embedding i as a row of cells. */
  function BatchRows(emb: seq<seq<real>>): (upd: seq<seq<Value>>)
    ensures |upd| == |emb|
    ensures forall i :: 0 <= i < |emb| ==> upd[i] == ToRow(emb[i])
  {
    seq(|emb|, i requires 0 <= i < |emb| => ToRow(emb[i]))
  }

  /** Row (start + i) % cap holds embedding i after the insertion. */
  lemma InsertBatchWrites(mem: seq<seq<Value>>, start: int, emb: seq<seq<real>>, i: int)
    requires 0 < |mem| && |emb| <= |mem|
    requires 0 <= i < |emb|
    ensures InsertBatch(mem, start, emb)[(start + i) % |mem|] == ToRow(emb[i])
  {
    var idx := RingIndices(start, |emb|, |mem|);
    RingIndicesDistinct(start, |emb|, |mem|);
    assert idx[i] == (start + i) % |mem|;
    ScatterDistinct(mem, idx, BatchRows(emb), idx[i]);
  }

  /** A row that no index of the batch names is unchanged. */
  lemma InsertBatchKeeps(mem: seq<seq<Value>>, start: int, emb: seq<seq<real>>, r: int)
    requires 0 < |mem| && |emb| <= |mem|
    requires 0 <= r < |mem|
    requires forall i :: 0 <= i < |emb| ==> RingIndices(start, |emb|, |mem|)[i] != r
    ensures InsertBatch(mem, start, emb)[r] == mem[r]
  {
    RingIndicesDistinct(start, |emb|, |mem|);
    ScatterDistinct(mem, RingIndices(start, |emb|, |mem|), BatchRows(emb), r);
  }

  /** If (start + i) % cap == r for an i in [0, cap), then i == (r - start) % cap. */
  lemma RingOffset(start: int, i: int, r: int, cap: nat)
    requires 0 <= i < cap && 0 <= r < cap
    requires (start + i) % cap == r
    ensures (r - start) % cap == i
  {
    var q := (start + i) / cap;
    assert r - start == i + (-q) * cap;
    ModShift(i, -q, cap);
    ModSmall(i, cap);
  }

  /** Row r after the insertion, in closed form: the embedding whose offset from
      `start` is (r - start) % cap if the batch reaches that far, else the old row. */
  lemma InsertBatchRow(mem: seq<seq<Value>>, start: int, emb: seq<seq<real>>, r: int)
    requires 0 < |mem| && |emb| <= |mem|
    requires 0 <= r < |mem|
    ensures var o := (r - start) % |mem|;
      InsertBatch(mem, start, emb)[r] == if o < |emb| then ToRow(emb[o]) else mem[r]
  {
    var cap := |mem|;
    var o := (r - start) % cap;
    if o < |emb| {
      var q := (r - start) / cap;
      assert start + o == r + (-q) * cap;
      ModShift(r, -q, cap);
      ModSmall(r, cap);
      InsertBatchWrites(mem, start, emb, o);
    } else {
      var idx := RingIndices(start, |emb|, cap);
      forall i | 0 <= i < |emb|
        ensures idx[i] != r
      {
        if idx[i] == r {
          RingOffset(start, i, r, cap);
        }
      }
      InsertBatchKeeps(mem, start, emb, r);
    }
  }

  /** `next_memory_index % memory.shape[0]` (line 234): the row the next batch
      starts at, whatever integer the stored cursor holds. */
  function StartIndex(next: int, cap: nat): (s: int)
    requires cap > 0
    ensures 0 <= s < cap
    ensures (next - s) % cap == 0
  {
    SameResidueIff(next, next % cap, cap);
    ModSmall(next % cap, cap);
    next % cap
  }

  /** The cursor stored after a call, as line 277 computes it: `start_index +
      embeddings.shape[0] % max_memory_size` binds as start + (m % cap). */
  function NextIndex(start: int, m: nat, cap: nat): int
    requires cap > 0
  {
    start + m % cap
  }

  /** From a reduced start the stored cursor stays below twice the capacity,
      and when it is below the capacity it is the intended row. */
  lemma NextIndexBounds(start: int, m: nat, cap: nat)
    requires 0 <= start < cap
    ensures 0 <= NextIndex(start, m, cap) <= 2 * cap - 2
    ensures NextIndex(start, m, cap) < cap ==> NextIndex(start, m, cap) == (start + m) % cap
  {
    NextIndexEffective(start, m, cap);
    if NextIndex(start, m, cap) < cap {
      ModSmall(NextIndex(start, m, cap), cap);
    }
  }

  /** The stored cursor is not always reduced: from row 3 of a 4-row buffer a
      batch of 2 leaves 5. */
  lemma NextIndexCanReachCapacity()
    ensures exists start: int, m: nat, cap: nat :: 0 <= start < cap && m <= cap && NextIndex(start, m, cap) >= cap
  {
    assert NextIndex(3, 2, 4) == 5;
  }

  /** Once reduced again at the next call, the stored cursor is the row the
      intended (start + m) % cap names. */
  lemma NextIndexEffective(start: int, m: nat, cap: nat)
    requires cap > 0
    ensures NextIndex(start, m, cap) % cap == (start + m) % cap
    ensures StartIndex(NextIndex(start, m, cap), cap) == (start + m) % cap
  {
    ModAddLeft(m, start, cap);
  }
}
