# gotidy/iters in Dafny

A model of the Go library `gotidy/iters`. It has two parts:

- the lazy-sequence combinators of `iters.go`;
- the retry generator of `retry.go`.

Each Go `iter.Seq`/`iter.Seq2` is a push-style producer. It calls a receiver (`yield`) once per value and must stop the first time the receiver answers `false`.

## How the model works

- **Receivers** (`Protocol.Receiver`). A deterministic receiver facing a given stream is described by how many values it accepts before it answers `false`.
  - `Receiver(accepts)` answers `true` to its first `accepts` calls.
  - `Deliver(out, r)` is what such a receiver is called with when a producer offers it `out`: everything up to and including the refused value.
  - A receiver that never refuses is one whose budget is at least the length of the stream.
- **Sources.** Finite sources are `seq<T>`. The never-ending generators (`Repeat`, `Exponential`) are `Source.Infinite(nat -> T)`, and the model takes prefixes of them.
- **Combinators.** Every combinator is a method that loops over its source and returns:
  - `emitted`: what its receiver was called with;
  - usually `pulled`: how many source values it took. This is how an early stop shows up upstream.

  Most methods are proved equal to a pure function over sequences (`Filtered`, `Mapped`, `Deduped`, `Trimmed`, `Flatten`, `ValuesWithKey`, `FoldLeft`, `OnTime`, `AfterDelayEmits`, ...), and the lemmas state the library's promises about those functions. The exceptions are `Contains`, `Count`, `EqualFunc` and `Jitter`. Their contracts relate the result to the inputs directly: a membership test, a length, element-wise equality, element-by-element values.
- **Pair variants** (`Filter2`, `Map2`, `Merge2`, `Count2`, ...) work on sequences of pairs `(K, V)`.
- **Nil values.** A nil pointer is `None`, and a nil delay sequence is `None`.
- **`EqualFunc`'s pull adapters** (`iter.Pull`) are objects of class `Cursor`. Each has a position and a `released` flag that `Stop` sets.
- **Retry.** In `retry.go` the `select` between cancellation and the timer is an oracle: `cancel(i)` says whether cancellation won the i-th wait. Durations are integer nanoseconds.

### Trim's extra pull

A caller might expect `Trim` to take nothing from its source beyond the values it passes on. The code (iters.go:371-374) checks the limit only after it has received the next value from its source. So on a source longer than `count`, it takes `count + 1` values, and on a non-empty source with `count <= 0` it takes one. The model follows the code: `Generators.Trim` states this extra pull.

## Model

| member | source | states |
|---|---|---|
| Protocol.Deliver | iters.go:13-21 | what a receiver receives from a producer that stops at the first `false`: a prefix of the offered stream whose calls but the last were answered `true`; shorter than the stream only if that last call was answered `false` |
| Elementwise.FilteredAppend | iters.go:13-21 | filtering a concatenation filters each part and keeps their order |
| Elementwise.FilteredCounts | iters.go:13-21 | the filter keeps every value satisfying `f` exactly as often as the input has it, and no other value |
| Elementwise.FilteredSplit | iters.go:13-21 | the filter of a prefix followed by the filter of the rest is the filter of the whole sequence |
| Elementwise.FilteredMembers | iters.go:13-21 | a value is emitted iff it is in the input and satisfies `f` |
| Elementwise.FilterMapCommute | iters.go:13-43 | filtering a mapped sequence equals mapping the sequence filtered on the composed predicate |
| Elementwise.Filter | iters.go:13-21 | offers exactly the values satisfying `f`, in order, up to the receiver's first `false`; what it offers is the filter of the values it pulled, and with the filter of the rest makes the whole filter; without a refusal it pulls everything; after a refusal the last value pulled was the refused one, so nothing more is pulled |
| Elementwise.Filter2 | iters.go:24-32 | the same over pairs, deciding on `f(k, v)`; every offered pair satisfies `f`; on a refusal the pulled prefix filters to exactly what was offered and its last value was the refused one, so nothing more is pulled; without a refusal it pulls everything |
| Elementwise.NotNil | iters.go:79-83 | offers the non-nil values in order, up to the receiver's first `false`; none offered is nil; on a refusal the pulled prefix filters to exactly what was offered and its last value was the refused one, so nothing more is pulled; without a refusal it pulls everything |
| Elementwise.NotNilValues | iters.go:86-90 | offers the pairs whose value is non-nil, in order, up to the receiver's first `false`; on a refusal the pulled prefix filters to exactly what was offered and its last value was the refused one, so nothing more is pulled; without a refusal it pulls everything |
| Elementwise.NotEmpty | iters.go:93-98 | offers the values different from the zero value, in order, up to the receiver's first `false`; the zero value is never offered; on a refusal the pulled prefix filters to exactly what was offered and its last value was the refused one, so nothing more is pulled; without a refusal it pulls everything |
| Elementwise.NotEmptyValues | iters.go:101-106 | offers the pairs whose value is not the zero value, in order, up to the receiver's first `false`; on a refusal the pulled prefix filters to exactly what was offered and its last value was the refused one, so nothing more is pulled; without a refusal it pulls everything |
| Elementwise.Map | iters.go:35-43 | offers `f(v)` for each value, in order, up to the receiver's first `false`, taking one source value per offer |
| Elementwise.Map2 | iters.go:46-54 | the i-th pair offered is `f(k_i, v_i)`; one pull per offer |
| Elementwise.MapValues | iters.go:57-65 | the i-th pair offered keeps key `k_i` and has value `f(v_i)` |
| Elementwise.MapKeys | iters.go:68-76 | the i-th pair offered has key `f(k_i)` and keeps value `v_i` |
| Elementwise.WithKeys | iters.go:109-117 | the i-th pair offered is `(f(v_i), v_i)` |
| Elementwise.WithIndex | iters.go:120-130 | the i-th pair offered is `(i, v_i)`; the counter starts at 0 and rises by one per value |
| Elementwise.ToSeq2 | iters.go:133-141 | the i-th pair offered is `f(v_i)` |
| Elementwise.Values | iters.go:209-217 | the i-th value offered is the value of the i-th pair |
| Elementwise.Keys | iters.go:220-228 | the i-th value offered is the key of the i-th pair |
| Dedup.FirstIndex | iters.go:149-163 | the first position of the input whose value has key `k` |
| Dedup.KeySetSnoc | iters.go:153-157 | recording the key of one more value adds exactly that key to the seen set |
| Dedup.DedupedKeys | iters.go:149-163 | the deduplicated sequence covers every key of the input and no other |
| Dedup.DedupedDistinct | iters.go:149-163 | no two values of the deduplicated sequence share a key |
| Dedup.DedupedFirsts | iters.go:149-163 | every kept value is the first input value with its key, and the kept values come in first-occurrence order |
| Dedup.DedupedPrefix | iters.go:149-163 | deduplicating a prefix of the input gives a prefix of the full deduplication |
| Dedup.FoldFunc | iters.go:149-163 | offers the deduplicated sequence up to the receiver's first `false`; offered values have pairwise distinct keys; without a refusal it pulls everything; after a refusal the last value pulled had a key not seen before; the seen set starts empty on every call |
| Dedup.Fold | iters.go:144-146 | deduplication on the values themselves, up to the receiver's first `false`; offered values are pairwise distinct; without a refusal it pulls everything; on a refusal what it offered is the deduplication of the pulled prefix and the last value pulled had a new key, so nothing more is pulled |
| Dedup.Fold2 | iters.go:166-179 | deduplication of pairs on the key alone, keeping the first pair per key, up to the receiver's first `false`; offered keys are pairwise distinct; without a refusal it pulls everything; on a refusal what it offered is the deduplication of the pulled prefix and the last value pulled had a new key, so nothing more is pulled |
| Dedup.Fold2Func | iters.go:182-196 | deduplication of pairs on `foldKey(k, v)`, up to the receiver's first `false`; offered pairs have distinct `foldKey`; without a refusal it pulls everything; on a refusal what it offered is the deduplication of the pulled prefix and the last value pulled had a new key, so nothing more is pulled |
| Aggregates.FoldLeftAppend | iters.go:199-206 | a left fold over a concatenation folds the second part from the result of the first |
| Aggregates.Reduce | iters.go:199-206 | the result is the left fold from `initializer`: the initializer for an empty input, else `f` of the fold of all but the last value and the last value |
| Aggregates.CountIsFold | iters.go:292-298 | counting is the fold that adds one per value |
| Aggregates.ReduceExample | iters_test.go:312-321 | reducing 0,1,0,1,... (ten values) from 100 with `+` gives 105 |
| Aggregates.Count | iters.go:292-298 | the count is the length of the sequence |
| Aggregates.CountFunc | iters.go:301-309 | the count is the number of values satisfying `f`, between 0 and the length |
| Aggregates.Count2 | iters.go:312-318 | the count is the number of pairs |
| Aggregates.CountFunc2 | iters.go:321-329 | the count is the number of pairs satisfying `f(k, v)` |
| Aggregates.Contains | iters.go:231-238 | true iff some value equals `x`; when found, the source is stopped at the first match; otherwise the whole source is pulled |
| Aggregates.Cursor.constructor | iters.go:247-248 | a fresh pull adapter is at position 0 and not released |
| Aggregates.Cursor.Next | iters.go:250-251 | hands out the next value and advances, or reports the end (also after release) without moving |
| Aggregates.Cursor.Stop | iters.go:253-254 | releases the adapter and leaves its position alone |
| Aggregates.EqualFunc | iters.go:246-263 | true iff both sequences have the same length and `equal` holds pairwise; the two adapters it creates over `s1` and `s2` are both released on every path, each positioned after the values it handed out; the rounds compared all agreed and the loop ends at the end of one of the sequences or at the first mismatch |
| Aggregates.Equal | iters.go:241-243 | true iff the two sequences are equal |
| Aggregates.SameUnderReflexive | iters.go:241-243 | every sequence equals itself under a reflexive `equal` |
| Aggregates.FlattenAppend | iters.go:266-276 | merging a concatenation of source lists concatenates their merges |
| Aggregates.MergeExamples | iters_test.go:391-431 | merging no sources is empty, one source is itself, two sources is their concatenation |
| Aggregates.Merge | iters.go:266-276 | offers the concatenation of the sources in argument order up to the receiver's first `false`; a refusal ends it without starting a later source; without a refusal every source is started |
| Aggregates.Merge2 | iters.go:279-289 | the same concatenation for key/value sources |
| Aggregates.ValuesWithKeyIsFilter | iters.go:332-338 | the values grouped under `k` are the values of the pairs whose key is `k`, in input order |
| Aggregates.ValuesWithKeyNonEmpty | iters.go:332-338 | a key gets values exactly when it occurs in the input |
| Aggregates.Group | iters.go:332-338 | the map's keys are exactly the input's keys, and each maps to its values in input order |
| Aggregates.GroupExample | iters_test.go:472-491 | grouping (a,1),(b,2),(a,3),(c,4),(b,5) gives a: [1 3], b: [2 5], c: [4] |
| Aggregates.GroupFunc | iters.go:341-343 | the map's keys are exactly the keys of the values, and each maps to the values with that key, in input order |
| Generators.Of | iters.go:384-392 | offers the literal values in order up to the receiver's first `false` |
| Generators.Repeat | iters.go:357-365 | offers `v` again and again until the receiver refuses one; every value offered is `v` |
| Generators.Exponential | iters.go:396-408 | offers the exponential sequence until the receiver refuses: first `start`, then each value grown by `factor` and capped at `max`; with `start <= max` no value exceeds `max` |
| Generators.ExponentialCeiling | iters.go:403-405 | with `start <= max` no value of the sequence exceeds `max` |
| Generators.ExponentialSettles | iters.go:403-405 | once a value reaches `max`, every later value equals it |
| Generators.ExponentialClosedForm | iters.go:396-408 | for `0 <= start <= max` and `factor >= 1` the i-th value is `min(max, start * factor^i)` |
| Generators.Trim | iters.go:368-381 | offers the first `count` values (none if `count <= 0`) up to the receiver's first `false`; on a refusal it pulls nothing more; otherwise it pulls one value past the limit when the source has one |
| Generators.TrimBound | iters.go:368-381 | Trim offers at most `max(count, 0)` values, and exactly `count` when the source has that many |
| Generators.TrimRepeat | iters_test.go:543-548 | Trim(Repeat(v), n) is n copies of `v` |
| Generators.TrimExponentialExample | iters_test.go:532-541 | Trim(Exponential(1, 100, 2), 10) is 1 2 4 8 16 32 64 100 100 100 |
| Generators.Jittered | iters.go:410-420 | jitter scales the value by `1 + factor * random`; a zero factor returns the value itself |
| Generators.JitterBound | iters.go:422-424 | with a draw in [-1, 1], a jittered value stays within `factor * |v|` of `v`, and a zero factor leaves it unchanged |
| Generators.JitterExamples | iters_test.go:557-563 | jitter(2, 0.5, r) is 1, 2 and 3 for r = -1, 0 and 1 |
| Generators.Jitter | iters.go:425-439 | the i-th value offered is the i-th source value jittered with the i-th draw; a zero factor offers the values unchanged and draws nothing; otherwise one draw per value |
| Generators.OnTime | iters.go:445-448 | the length of the prefix of the source whose clock checks are all within `max`, cut at the first value that is missing or late |
| Generators.OnTimeNeverLate | iters.go:442-454 | with a clock never over `max`, nothing is cut: the prefix is as long as the source allows |
| Generators.MaxElapsedTime | iters.go:442-454 | offers the on-time prefix of the source up to the receiver's first `false`; after a refusal it pulls nothing more; if it stopped for time, the value after the last offered one was pulled and its check was over `max`; if the source ended, nothing more was pulled |
| Generators.MaxElapsedStopsRepeat | iters_test.go:610-620 | over Repeat(v), a clock that is late at check k ends the traversal after k copies of `v`, whatever more the receiver would take |
| Retry.FirstCancel | retry.go:33-35 | the first wait that cancellation wins, with no earlier one won |
| Retry.RetryAfterDelay | retry.go:26-44 | offers (1, d_0), (2, d_1), ... with consecutive attempt numbers, each delay the one just pulled, for waits cancellation did not win; a nil schedule offers nothing; the ending is determined by the run: Exhausted only when the schedule has no further delay and nothing was pulled past its end, Cancelled only when a further delay was pulled and cancellation won its wait (its attempt not offered), Refused exactly when the receiver refused a pair (no further delay pulled) |
| Retry.AfterDelayStops | retry.go:26-44 | whichever way the run ends at delay k (cancellation wins its wait, the schedule has no delay k, or the receiver refused the pair before it), RetryAfterDelay has offered exactly the first k delays, numbered from 1 |
| Retry.Retry | retry.go:11-22 | offers (0, 0) before pulling any delay; a refusal there pulls nothing; after it, offers exactly what RetryAfterDelay offers the rest of the receiver; a nil schedule gives only (0, 0); it ends Exhausted only when the schedule has no further delay, Cancelled only when a further delay was pulled and cancellation won its wait, and Refused exactly when the receiver refused |
| Retry.RetryAllDelays | retry_test.go:9-29 | with n delays, no cancellation and a receiver that takes them all, Retry offers n + 1 pairs: (0, 0), then (i, d_i) for i = 1..n |
| Retry.RetryCancelStops | retry.go:33-35 | if cancellation wins wait c, no attempt after c is offered |
| Retry.RetryTenExample | retry_test.go:9-29 | Retry over Trim(Repeat(100ms), 10) offers (0, 0s) then (1, 100ms) ... (10, 100ms) |
| Retry.RetryBreakExample | retry_test.go:31-46 | Retry over Trim(Exponential(1ms, 1s, 2), 5), left after attempt 5, offers (0,0) (1,1ms) (2,2ms) (3,4ms) (4,8ms) (5,16ms) |
| Retry.RetryCancelledExample | retry_test.go:48-63 | with the context cancelled before the first wait, Retry over Repeat(100ms) offers only (0, 0) |

## Left out

- `Pointers` (iters.go:346-354): its purpose is the identity of addresses into a Go slice. The model has no addresses.
- Concurrency and coroutines.
  - `iter.Pull` runs the producer as a coroutine. `Cursor` replaces it with a position over a finite sequence and a `released` flag.
  - The goroutine and channel in the cancellation test are not modelled.
- Wall clock and timers are oracles.
  - `time.After` is not modelled as a wait.
  - `ctx.Done()` and the nondeterministic `select` are the `cancel` oracle.
  - `time.Since` in `MaxElapsedTime` is the `elapsed` oracle.
- Randomness: `rand.Uint64` becomes the `random` oracle in `Jitter`. The test that checks the draws are uniform is not modelled.
- Generators.Exponential: computed over integers with an integer factor. The conversion through `float64` and back to `D` (rounding, fractional factors, float `D`) is not modelled.
- Generators.Jitter: computed over exact reals. Float rounding and the truncating conversion back to an integer `T` are not modelled.
- Machine integers: counters, attempt numbers and durations are unbounded integers, so `int`/`int64` overflow is not modelled.
- Receivers are modelled by their budget (how many values they accept). A receiver whose answers depend on state outside the stream behaves like one of these budgets on any single run that ends.
- Non-terminating traversals are not modelled. Every `Receiver` refuses eventually, so `Repeat`, `Exponential` and the retry loop over an endless schedule always stop in the model. In Go, `for range Repeat(v) {}` or an `Exponential` read by a receiver that never refuses loops forever.
- Filtering, mapping, deduplication, merging, counting, aggregating and `Jitter` are modelled over finite sources only, although `Jitter` is typically applied to an endless `Exponential`. Over an endless source these loops end only through the receiver, which the generators and Trim/MaxElapsedTime cover.
- Go's `==` on `comparable` types is modelled as Dafny equality, which is reflexive. This affects `Contains`, `Equal`, the `Fold` family and `Group`. In Go a floating-point NaN never equals itself:
  - `Contains(NaN, s)` is false;
  - `Equal(s, s)` is false when `s` holds a NaN;
  - every NaN misses the map lookup in `FoldFunc`/`Fold2`, so each NaN is kept;
  - `Group` gives every NaN key its own entry.
  Comparing, or using as map keys, interface values whose dynamic type is not comparable panics in Go. Neither behaviour is modelled.
- Test scaffolding (`printSeq`, `printSeq2`, `assertEquals`, `isUniform`, `BenchmarkEqual`) is not modelled.
