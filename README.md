# Episodic-memory intrinsic reward: a Dafny model

This project models the episodic-memory intrinsic reward of rlax, file
`rlax/_src/exploration.py`. It covers the `IntrinsicRewardState` record and one
call of `episodic_memory_intrinsic_rewards`. That reward comes from Never Give
Up and Agent57. A call does the following:

- It builds a fresh state when none is supplied. The fresh memory is a
  `[max_memory_size, D]` buffer of `+inf`, and its first `num_neighbors` rows
  are zeros.
- Otherwise it checks the shape of the supplied memory.
- It queries the K nearest neighbours of each embedding in the memory as it
  was before the call.
- It writes the M embeddings into the memory as a ring buffer, starting at the
  stored cursor reduced modulo the capacity.
- It adds the squared distances to a running sum, and their number to a
  running count.
- It turns each embedding's distances into a reward. The distances are
  normalised by the running mean, clipped, passed through the kernel ε/(d+ε),
  summed, square-rooted and offset by c. The reward is β/s, or 0 when the
  similarity s exceeds the cap.

The modules follow that structure:

- `ModArith` (`mod_arith.dfy`) holds facts about `%` with a positive
  divisor. Dafny's `%` is Euclidean, which is the same as Python's and NumPy's
  floored `%` there, negative cursors included.
- `Memory` (`memory.dfy`) models the buffer as a value: a matrix of cells
  `Inf | Finite(x)`. It defines the fresh layout, the ring-buffer scatter
  (written out as the in-order sequence of row writes), the reduced start row
  and the stored cursor.
- `Reward` (`reward.dfy`) models the reward pipeline over `real`. The square
  root is a parameter. The model assumes only that it is non-negative on
  non-negative arguments.
- `EpisodicMemory` (`episodic_memory.dfy`) models one call as the function
  `Step`, which returns the rewards and the next state or an error. `Run`
  threads a state through a sequence of calls. The lemmas state what one call
  promises and what the ring buffer holds after many calls.
- `Exploration` (`exploration.dfy`) contains the `IntrinsicRewardState` class
  over an `array2` buffer. It also has the methods that build the fresh state,
  zero the padding rows, copy the buffer and scatter a batch into it with
  loops. The top-level method `EpisodicMemoryIntrinsicRewards` is proved to
  return exactly what `Step` specifies for the fields of the supplied state. It
  allocates the state it returns and leaves the supplied one as it was, as the
  code does: JAX arrays are immutable, and the call builds a new record.

Where the code fails, the model returns an error value instead of requiring
the input away:

- `PaddingShape`: a fresh state whose zero padding of K rows does not
  broadcast onto the first min(K, capacity) rows. This happens when K exceeds
  the capacity, K is not 1, and both the capacity and D are positive (line
  221). JAX's scatter returns its operand as it is, without broadcasting the
  update, when the selected slice is empty. With a capacity of 0 or D = 0 the
  padding therefore raises nothing, and the call fails later, as described
  below (`EpisodicMemory.EmptyBufferErrors`). This is JAX's scatter behaviour
  and is not in the rlax file.
- `ShapeMismatch`: a supplied memory that is not `[max_memory_size, D]`
  (lines 223-224).
- `ZeroCapacity`: a capacity of 0, where `%` by zero raises on Python integers
  (lines 234 and 277).
- `NoFeatures`: D = 0, where indexing `embeddings[..., 0]` fails (line 265).

The nearest-neighbour query is a parameter of type
`(memory, embeddings, K) -> [M, K] distances`. The model assumes only that it
returns M rows of K non-negative numbers. Nothing about how it searches is
assumed.

**The stored cursor (line 277).** The code computes the next cursor as
`start_index + M % max_memory_size`. Python binds this as `start + (M % cap)`,
so the stored value can reach `2 * cap - 2` (start `cap - 1` and a batch of
`cap - 1`). It is not always below the
capacity, as a value that wraps at `max_memory_size` would be. The model
follows the code (`Memory.NextIndex`) and proves three things:

- The stored cursor lies in `[0, 2 * cap - 2]`.
- It can be at least `cap`: row 3 of a 4-row buffer plus a batch of 2 gives 5.
- Once the next call reduces it (line 234), it names the intended row
  `(start + M) % cap`.

The ring buffer therefore behaves as intended. Only the stored integer is off.

## Model

| member | source | states |
|---|---|---|
| `Memory.FreshMemoryLayout` | rlax/_src/exploration.py:214-221 | the fresh buffer is `[cap, D]`; cell (r, c) is 0 when r < K and `+inf` otherwise |
| `Memory.SetLeadingRows` | rlax/_src/exploration.py:220-221 | writing a K-row padding over the leading rows keeps the buffer's row count; the cells are stated by `Memory.FreshMemoryLayout` |
| `Memory.RingIndices` | rlax/_src/exploration.py:235 | the M target rows, each in `[0, cap)` |
| `Memory.RingIndicesDistinct` | rlax/_src/exploration.py:235 | at most cap consecutive ring indices are pairwise distinct, so the scatter never writes a row twice |
| `Memory.Scatter` | rlax/_src/exploration.py:236 | the in-order indexed set keeps the buffer's length; its contents are stated by `Memory.ScatterDistinct` |
| `Memory.ScatterDistinct` | rlax/_src/exploration.py:236 | with distinct indices, row idx[i] holds update i and a row no index names is unchanged, whatever the write order |
| `Memory.InsertBatch` | rlax/_src/exploration.py:233-236 | the ring-buffer insertion keeps the buffer's row count; its rows are stated by `Memory.InsertBatchWrites`, `Memory.InsertBatchKeeps` and `Memory.InsertBatchRow` |
| `Memory.InsertBatchWrites` | rlax/_src/exploration.py:233-236 | row (start + i) % cap holds embedding i after the insertion |
| `Memory.InsertBatchKeeps` | rlax/_src/exploration.py:233-236 | a row that no index of the batch names is unchanged |
| `Memory.InsertBatchRow` | rlax/_src/exploration.py:233-236 | closed form of row r after the insertion: embedding (r - start) % cap if the batch reaches that offset, else the old row |
| `Memory.RingOffset` | rlax/_src/exploration.py:235 | the only offset i < cap that lands on row r is (r - start) % cap |
| `Memory.StartIndex` | rlax/_src/exploration.py:234 | the reduced cursor is in `[0, cap)` and congruent to the stored one, negative cursors included |
| `Memory.NextIndexBounds` | rlax/_src/exploration.py:277 | from a reduced start, the stored cursor is in `[0, 2 * cap - 2]`, and when it is below cap it is the intended row (start + M) % cap |
| `Memory.NextIndexCanReachCapacity` | rlax/_src/exploration.py:277 | some start < cap and M <= cap give a stored cursor >= cap |
| `Memory.NextIndexEffective` | rlax/_src/exploration.py:277 | the stored cursor is congruent to start + M, so the next call's reduced start is (start + M) % cap |
| `Reward.RowSumNonNegative` | rlax/_src/exploration.py:242 | a sum of non-negative distances is non-negative |
| `Reward.SumAllNonNegative` | rlax/_src/exploration.py:242 | the sum of an `[M, K]` array of non-negative distances is non-negative |
| `Reward.SizeOfMatrix` | rlax/_src/exploration.py:244 | an `[M, K]` array has M * K entries |
| `Reward.SizeZeroIffEmptyRows` | rlax/_src/exploration.py:244-249 | the count adds nothing exactly when every row is empty (the mean is needed only when there is a distance) |
| `Reward.ClippedRate` | rlax/_src/exploration.py:250-254 | the clipped rate is >= 0 and >= rate - ξ, and is one of the two |
| `Reward.KernelBounds` | rlax/_src/exploration.py:257 | with ε > 0 the kernel is in (0, 1], and is 1 exactly at rate 0 |
| `Reward.KernelAntitone` | rlax/_src/exploration.py:257 | a larger rate gives a kernel value no larger |
| `Reward.KernelSum` | rlax/_src/exploration.py:250-261 | the kernel sum of a row of K distances is in `[0, K]`, and positive when K > 0 |
| `Reward.Similarity` | rlax/_src/exploration.py:261 | the similarity is at least c |
| `Reward.GatedRewardSpec` | rlax/_src/exploration.py:265-273 | the reward is 0 above the similarity cap and β / s otherwise; in `[0, β / c]` when β >= 0; 0 exactly when the cap is exceeded or β = 0 |
| `Reward.Rewards` | rlax/_src/exploration.py:238-273 | one reward per embedding; each is stated by `Reward.RewardsSpec` |
| `Reward.RewardsSpec` | rlax/_src/exploration.py:238-273 | reward i is the gated reward of embedding i's similarity, with its bounds |
| `EpisodicMemory.FreshStateLayout` | rlax/_src/exploration.py:147-152 | a fresh state has zero rows below K, `+inf` rows from K to cap, width D and all three counters 0 |
| `EpisodicMemory.StepErrors` | rlax/_src/exploration.py:213-224 | a call fails exactly when the padding does not broadcast (fresh state; an empty target slice always accepts it), the supplied memory is not `[cap, D]`, cap is 0 or D is 0; a misshapen supplied state or padding is reported as such and no state is returned |
| `EpisodicMemory.EmptyBufferErrors` | rlax/_src/exploration.py:213-265 | a fresh call on a buffer with no rows fails at the capacity, and one on rows of width 0 at D, never at the padding |
| `EpisodicMemory.UpdateSpec` | rlax/_src/exploration.py:233-244 | after one call, embedding i is in row idx[i], no other row changes, the cursor is start + M % cap (below 2 * cap, the intended row once reduced), the count grows by M * K and the sum grows by the distances and does not decrease |
| `EpisodicMemory.StepThreadsState` | rlax/_src/exploration.py:275-279 | a call on a well-shaped state succeeds, returns `Update` of it, and returns a state that is again well-shaped with valid statistics |
| `EpisodicMemory.QueryBeforeInsert` | rlax/_src/exploration.py:228-236 | the result depends on the query only through its answer on the memory before the insertion |
| `EpisodicMemory.StepRewards` | rlax/_src/exploration.py:246-273 | each reward of a successful call is 0 above the cap and β / s otherwise, with s >= c, and is in `[0, β / c]` when β >= 0 |
| `EpisodicMemory.CursorStep` | rlax/_src/exploration.py:234-277 | one call moves a cursor congruent to c to one congruent to c + M, in `[0, 2 * cap)` |
| `EpisodicMemory.UpdateCursor` | rlax/_src/exploration.py:234-277 | one call on a state whose cursor is congruent to c leaves a cursor congruent to c + M, in `[0, 2 * cap)` |
| `EpisodicMemory.RunCursor` | rlax/_src/exploration.py:234-277 | after any number of calls, the reduced cursor is the start plus the number of embeddings inserted; after one call or more it is in `[0, 2 * cap)` |
| `EpisodicMemory.UpdateCounters` | rlax/_src/exploration.py:241-244 | one call adds M * K to the count and does not lower the sum |
| `EpisodicMemory.RunCountLast` | rlax/_src/exploration.py:243-244 | one more call adds K to the count per embedding of its batch |
| `EpisodicMemory.RunCountStep` | rlax/_src/exploration.py:243-244 | if the count has grown by K per embedding before the last batch, it has after it too |
| `EpisodicMemory.RunCount` | rlax/_src/exploration.py:243-244 | after any number of calls, the count has grown by K per embedding |
| `EpisodicMemory.RunSum` | rlax/_src/exploration.py:241-242 | after any number of calls, the sum has not decreased |
| `EpisodicMemory.RunCounters` | rlax/_src/exploration.py:241-244 | after any number of calls, the count has grown by K per embedding and the sum has not decreased |
| `EpisodicMemory.ConcatLength` | rlax/_src/exploration.py:244 | n batches of M embeddings hold n * M embeddings |
| `EpisodicMemory.LastWriterStep` | rlax/_src/exploration.py:233-236 | how one batch moves the position in the stream of the last embedding written to a row |
| `EpisodicMemory.UpdateLastWriter` | rlax/_src/exploration.py:233-236 | one more call keeps each row holding the embedding at its `LastWriter` position, or its original content when that is negative; `LastWriterRow`, `LastWriterIsLast` and `LastWriterNoneIffNeverSent` make that the last embedding sent to the row, or none |
| `EpisodicMemory.RunMemory` | rlax/_src/exploration.py:233-236 | after any number of calls, each row holds the embedding at its `LastWriter` position, which is the last of the stream sent to it (`LastWriterRow`, `LastWriterIsLast`), or its original content when none was sent (`LastWriterNoneIffNeverSent`) |
| `EpisodicMemory.LastWriterOfRecent` | rlax/_src/exploration.py:235 | each of the last cap embeddings of a stream is at the `LastWriter` position of its row, so (`LastWriterIsLast`) no later embedding is sent there |
| `EpisodicMemory.LastWriterRow` | rlax/_src/exploration.py:235 | a row's last writer is an embedding sent to that row |
| `EpisodicMemory.LastWriterIsLast` | rlax/_src/exploration.py:235 | no embedding after a row's last writer is sent to that row |
| `EpisodicMemory.LastWriterNoneIffNeverSent` | rlax/_src/exploration.py:235 | a row has no last writer exactly when no embedding of the stream was sent to it |
| `EpisodicMemory.RunKeepsMostRecent` | rlax/_src/exploration.py:233-236 | after any number of calls, each of the last cap embeddings of the stream is in its ring row |
| `EpisodicMemory.RunKeepsUntouchedRow` | rlax/_src/exploration.py:233-236 | one row that no embedding of the stream was sent to keeps its content after any number of calls |
| `EpisodicMemory.RunKeepsUntouched` | rlax/_src/exploration.py:233-236 | a row that no embedding of the stream was sent to (`NeverSent`) keeps its content |
| `EpisodicMemory.FreshRun` | rlax/_src/exploration.py:213-244 | from a fresh state, after n calls of M embeddings, the next insertion starts at row (n * M) % cap, the count is n * M * K and the sum is non-negative |
| `EpisodicMemory.FirstCall` | rlax/_src/exploration.py:213-224 | when the padding broadcasts, a call with no state is the same as a call with the fresh state, which is valid |
| `EpisodicMemory.Calls` | rlax/_src/exploration.py:155-279 | feeding each call the state the previous one returned, starting from no state: any state obtained is valid and `[cap, D]` |
| `EpisodicMemory.CallsAreRun` | rlax/_src/exploration.py:213-279 | with a padding that broadcasts, cap > 0 and D > 0, every call of that chain succeeds and the final state is `Run` from the fresh state |
| `Exploration.IntrinsicRewardState.constructor` | rlax/_src/exploration.py:147-152 | the four fields take the given values, with defaults 0, 0.0 and 0 for the counters |
| `Exploration.IntrinsicRewardState.PadWithZeros` | rlax/_src/exploration.py:218-221 | the buffer becomes the leading-rows update of its old content with K zero rows |
| `Exploration.NewState` | rlax/_src/exploration.py:214-221 | fails exactly when the padding does not broadcast; otherwise a new state whose value is the fresh state |
| `Exploration.CopyBuffer` | rlax/_src/exploration.py:236 | a new buffer of the same shape and cells |
| `Exploration.WriteRow` | rlax/_src/exploration.py:236 | one row of the buffer becomes the given cells and every other row is unchanged |
| `Exploration.InsertRows` | rlax/_src/exploration.py:233-236 | the buffer becomes the ring-buffer insertion of its old content |
| `Exploration.EpisodicMemoryIntrinsicRewards` | rlax/_src/exploration.py:155-279 | fails exactly when `Step` does, with the same error; otherwise returns the rewards `Step` specifies and a new state whose value is `Step`'s next state |

## Left out

- The noise generators (lines 37-144). They are random draws and one-line
  floating-point arithmetic, outside this model.
- The nearest-neighbour search. `episodic_memory.knn_query` is not part of this
  model; it is the `knn` parameter, assumed to return M rows of K non-negative
  squared distances. Line 238 reads the result's field `neighbor_neg_distances`,
  and the comment at lines 226-227 calls them squared distances. Their
  non-negativity is therefore an assumption about the query's design, not a
  fact about code in this model. The following rest on it: the non-decreasing
  sum in `UpdateSpec`, `UpdateCounters`, `RunSum`, `RunCounters` and
  `FreshRun`; a call's output state being valid again (`StepThreadsState`,
  `Calls`); and the preconditions of the reward functions.
- `jax.jit` compilation and the `chex` assertions. The shape assertion of line
  223 is the `ShapeMismatch` error. The rank of `embeddings` is not modelled:
  embeddings are an `[M, D]` matrix given with its D.
- IEEE-754 behaviour. `+inf` is a separate cell value, arithmetic is exact over
  `real`, NaN is not modelled, and the value of `sqrt` is left open beyond
  non-negativity.
- Batches with M > max_memory_size. The scatter then has duplicate indices,
  whose write order JAX leaves unspecified, so every operation requires M <= cap.
- Negative `num_neighbors` or `max_memory_size`: both are `nat`.
- `constant > 0` and `epsilon > 0` are required, not modelled as errors. With
  other values a division can be by zero, which JAX does not raise, so the
  float result would have to be modelled.
- A supplied state with a negative `distance_sum` or `distance_count` is
  excluded by a precondition. Every state the code itself builds satisfies it.
- When several error conditions hold at once, the model reports the one the
  code meets first. That order is fresh-state padding or shape check, then
  capacity, then D. The exception types themselves are not modelled, and
  neither is a failure inside the nearest-neighbour query, which runs before
  line 234 (on an empty memory, say).
