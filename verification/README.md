# FreeRTOS+POSIX time utilities in Dafny

A model of the time-conversion utilities of the FreeRTOS+POSIX compatibility
layer (`FreeRTOS_POSIX_utils.c`). These functions translate between POSIX
`struct timespec` values `(tv_sec, tv_nsec)` and the scheduler's tick
counter. They validate, compare, normalise, add and subtract timespecs. They
convert a duration to ticks, rounding up, and turn an absolute deadline into
the number of ticks still to wait. A bounded string-length scan sits in the
same file.

Layout:

- `pointers.dfy`, module `Pointers`: `Option` stands for a pointer that may be NULL. `Written` is a status code paired with the new content of an output location.
- `c_arith.dfy`, module `CArith`: the C arithmetic the code relies on. This covers the `int64_t` range, `/` and `%` truncating toward zero, and conversion to an unsigned type modulo 2^w, with the modular lemmas used by the tick conversion.
- `timespecs.dfy`, module `Timespecs`: validation, comparison, nanosecond normalisation, addition, subtraction.
- `ticks.dfy`, module `Ticks`: conversion to ticks and the deadline-to-delta conversion.
- `strings.dfy`, module `Strings`: `UTILS_strnlen`.

Conventions:

- Output pointers are modelled as values. Each entry point that checks its pointers for NULL takes the output location's current content as `Option<T>`, where `None` means a NULL pointer. It returns `Written(status, dest')`. When the C code does not write, `dest'` is the old content.
- The tick rate `configTICK_RATE_HZ`, `NANOSECONDS_PER_TICK` and the bit width of `TickType_t` are a `TickConfig` parameter. Its well-formedness requires a rate above 0, more than one nanosecond per tick, and a tick width of at most 64 bits.
- Fields are unbounded integers. C conversions are written out explicitly: the `uint64_t` casts and the narrowing to `TickType_t` are reductions modulo 2^64 and 2^W.

Two facts about the code worth stating on their own:

- The status of `UTILS_TimespecAdd` is not an overflow flag: it is 1 exactly when the 64-bit nanosecond sum is negative (line 182). It does not detect wrap-around.
- The "negative after borrow" branch of `UTILS_TimespecSubtract` (lines 249-253) cannot be reached with valid operands (`Timespecs.SubtractFailsOnlyOnInvalid`). An invalid operand reaches it (`Timespecs.SubtractFailsOnInvalidExample`), and by then the borrowed difference has already been written to the output.

## Model

| member | source | states |
|---|---|---|
| `Strings.Strnlen` | lib/FreeRTOS-Plus-POSIX/source/FreeRTOS_POSIX_utils.c:41-57 | A NULL string gives 0. Otherwise the result is at most `xMaxLength` and equals the smaller of `xMaxLength` and the index of the first NUL. Every counted character is non-NUL. The precondition is what the loop needs to stay in bounds: a NUL, or more than `xMaxLength` characters. |
| `Strings.StrnlenBounded` | lib/FreeRTOS-Plus-POSIX/source/FreeRTOS_POSIX_utils.c:49 | Corrected scan with the two tests in the other order. It gives the same result and needs only `xMaxLength` readable characters. |
| `Strings.BoundedScanAcceptsMore` | lib/FreeRTOS-Plus-POSIX/source/FreeRTOS_POSIX_utils.c:49 | Every buffer the as-written scan may be given, the corrected scan may be given too. |
| `Strings.StrnlenOverreadsWitness` | lib/FreeRTOS-Plus-POSIX/source/FreeRTOS_POSIX_utils.c:49 | An unterminated 3-character buffer with bound 3 is within the corrected scan's needs, but the as-written scan indexes position 3. |
| `Ticks.AbsoluteTimespecToDeltaTicks` | lib/FreeRTOS-Plus-POSIX/source/FreeRTOS_POSIX_utils.c:61-97 | A NULL argument gives EINVAL. The status is ETIMEDOUT exactly when the target compares below now. A subtraction status of -1 becomes EINVAL. Any non-zero status leaves the result untouched. Whenever the subtraction succeeds, the result is exactly what `TimespecToTicks` gives for the written difference, so an invalid operand whose difference is valid still yields ticks. For valid target >= now the status is 0 and the result is the tick count of the normalised difference target - now, narrowed to the tick width. |
| `Ticks.InvalidDeadlineStillConverts` | lib/FreeRTOS-Plus-POSIX/source/FreeRTOS_POSIX_utils.c:75-94 | The operands themselves are never validated: target (5, -500000000) against now (0, 0) at 1000 Hz gives status 0 and 4500 ticks. |
| `Ticks.DeadlineNowIsZeroTicks` | lib/FreeRTOS-Plus-POSIX/source/FreeRTOS_POSIX_utils.c:75-94 | A target equal to now gives status 0 and 0 ticks, for every timespec and configuration. |
| `Ticks.PastDeadlineTimesOut` | lib/FreeRTOS-Plus-POSIX/source/FreeRTOS_POSIX_utils.c:77-82 | Target (10, 0) against now (11, 0) gives ETIMEDOUT and leaves the result untouched. |
| `Ticks.FutureDeadlineTicks` | lib/FreeRTOS-Plus-POSIX/source/FreeRTOS_POSIX_utils.c:75-94 | Target (11, 0) against now (10, 0) at 1000 Hz with 32-bit ticks gives 1000 ticks. |
| `Ticks.TimespecToTicks` | lib/FreeRTOS-Plus-POSIX/source/FreeRTOS_POSIX_utils.c:101-137 | A NULL argument or an invalid timespec gives EINVAL and leaves the result untouched. Otherwise the status is 0 and the result is `rate * tv_sec + ceil(tv_nsec / nsPerTick)` modulo 2^W. This holds for negative `tv_sec` too. |
| `Ticks.NanosecondTicksRoundUp` | lib/FreeRTOS-Plus-POSIX/source/FreeRTOS_POSIX_utils.c:123-127 | For a valid `tv_nsec`, the contribution `c = Ticks.NanosecondTicks(tv_nsec, nsPerTick)` computed at lines 126-127 satisfies `c * nsPerTick >= tv_nsec`. When `tv_nsec > 0`, `(c - 1) * nsPerTick < tv_nsec`. It is 0 for 0 and fits a 32-bit `long`, which is why the code needs no overflow check there. |
| `Ticks.TotalTicksWrap` | lib/FreeRTOS-Plus-POSIX/source/FreeRTOS_POSIX_utils.c:121-133 | The `uint64_t` conversions of `tv_sec`, of the product and of the sum make no difference once the total is narrowed to a tick width of at most 64 bits. |
| `Ticks.TicksAreCeiling` | lib/FreeRTOS-Plus-POSIX/source/FreeRTOS_POSIX_utils.c:121-130 | Assume an exact configuration (rate * nsPerTick = 1e9) and a non-negative valid duration. Then the tick count is the ceiling of the duration over the tick length, so a delay is never shortened. |
| `Ticks.OneNanosecondIsOneTick` | lib/FreeRTOS-Plus-POSIX/source/FreeRTOS_POSIX_utils.c:126-127 | (0, 1) at 1000 Hz converts to 1 tick, not 0. |
| `Timespecs.NanosecondsToTimespec` | lib/FreeRTOS-Plus-POSIX/source/FreeRTOS_POSIX_utils.c:141-159 | For every `int64_t` count, the result satisfies the normalisation invariant and denotes exactly that many nanoseconds, negative counts included. It equals the Euclidean normal form, its `tv_sec` fits `int64_t` and its `tv_nsec` fits a 32-bit `long`. |
| `Timespecs.CarryIsOneSecond` | lib/FreeRTOS-Plus-POSIX/source/FreeRTOS_POSIX_utils.c:153-157 | When the truncated remainder is negative, the carry `tv_nsec / 1e9 + 1` is exactly 1. |
| `Timespecs.MinusOneNanosecond` | lib/FreeRTOS-Plus-POSIX/source/FreeRTOS_POSIX_utils.c:141-159 | -1 ns normalises to (-1, 999999999). |
| `Timespecs.TimespecAdd` | lib/FreeRTOS-Plus-POSIX/source/FreeRTOS_POSIX_utils.c:163-183 | A NULL argument gives -1 and nothing is written. Otherwise the result is normalised and denotes the sum of the operands' nanosecond values. The status is 1 exactly when that sum is negative, and 0 otherwise. |
| `Timespecs.AddCommutes` | lib/FreeRTOS-Plus-POSIX/source/FreeRTOS_POSIX_utils.c:176-177 | Swapping the operands changes neither status nor result. |
| `Timespecs.TimespecAddNanoseconds` | lib/FreeRTOS-Plus-POSIX/source/FreeRTOS_POSIX_utils.c:187-204 | The result equals `TimespecAdd(x, NanosecondsToTimespec(n))` in every case. NULL gives -1. Otherwise the result is normalised, denotes x + n nanoseconds, and the status is 1 exactly when x + n is negative. |
| `Timespecs.TimespecSubtract` | lib/FreeRTOS-Plus-POSIX/source/FreeRTOS_POSIX_utils.c:208-255 | NULL gives -1. The status is 1, with nothing written, exactly when x compares below y. Equal arguments give (0, 0). When x compares above y, the written fields are the field-wise differences with one borrow when `x.tv_nsec < y.tv_nsec`, and the status is -1 exactly when `x.tv_nsec - y.tv_nsec < -1e9` (still negative after the borrow). Whenever something is written, it denotes x - y nanoseconds. For valid x >= y the status is 0 and the result is the normalised, non-negative difference. |
| `Timespecs.SubtractFailsOnlyOnInvalid` | lib/FreeRTOS-Plus-POSIX/source/FreeRTOS_POSIX_utils.c:241-253 | The "negative after borrow" status -1 with non-NULL arguments implies an invalid operand. |
| `Timespecs.SubtractFailsOnInvalidExample` | lib/FreeRTOS-Plus-POSIX/source/FreeRTOS_POSIX_utils.c:241-253 | The operands (1, -1500000000) and (0, 0) do reach that -1 branch. |
| `Timespecs.SubtractThenAdd` | lib/FreeRTOS-Plus-POSIX/source/FreeRTOS_POSIX_utils.c:208-255 | Take valid x >= y whose values and difference fit `int64_t`. Then y plus (x - y) gives back exactly x. |
| `Timespecs.TimespecCompare` | lib/FreeRTOS-Plus-POSIX/source/FreeRTOS_POSIX_utils.c:259-300 | The result is -1, 0 or 1. Two NULLs compare equal and a NULL sorts below any timespec. For two timespecs it is 0 exactly when they are equal, and -1 (or 1) exactly when the first is lexicographically below (or above) the second. |
| `Timespecs.CompareAntisymmetric` | lib/FreeRTOS-Plus-POSIX/source/FreeRTOS_POSIX_utils.c:259-300 | compare(x, y) = -compare(y, x) for all arguments, NULL included. |
| `Timespecs.CompareTransitive` | lib/FreeRTOS-Plus-POSIX/source/FreeRTOS_POSIX_utils.c:259-300 | "Compares below" is transitive. |
| `Timespecs.CompareMatchesNanoseconds` | lib/FreeRTOS-Plus-POSIX/source/FreeRTOS_POSIX_utils.c:276-299 | On valid timespecs, the comparison orders them the same way as their nanosecond values. |
| `Timespecs.ValidateTimespec` | lib/FreeRTOS-Plus-POSIX/source/FreeRTOS_POSIX_utils.c:304-319 | True exactly for a non-NULL timespec with `0 <= tv_nsec < 1e9`. |
| `Timespecs.ValidIffNormalised` | lib/FreeRTOS-Plus-POSIX/source/FreeRTOS_POSIX_utils.c:310-315 | A timespec passes validation exactly when normalising its own nanosecond value gives it back. |
| `Timespecs.ValidateIgnoresSeconds` | lib/FreeRTOS-Plus-POSIX/source/FreeRTOS_POSIX_utils.c:304-319 | Two timespecs that differ only in `tv_sec` validate alike. |

## Left out

- Timespecs.TimespecAdd: when all three pointers are non-NULL, requires the nanosecond values of both operands, and their sum, to fit `int64_t`; outside that range the C addition has signed-overflow undefined behaviour. The overflow of the intermediate product `tv_sec * 1e9` is not modelled separately.
- Timespecs.TimespecAddNanoseconds: takes `n` as an `int64_t`, and when both pointers are non-NULL carries the same `int64_t` requirement as `TimespecAdd`, for the reason given there.
- Timespecs.TimespecSubtract: uses unbounded integers for `x->tv_sec - y->tv_sec` and `x->tv_nsec - y->tv_nsec`. An overflow of those `time_t`/`long` differences is not modelled.
- Timespecs.NanosecondsToTimespec: `pxDestination` is taken to be non-NULL and the result is returned rather than written, because the C dereferences it at lines 147-148 without a check and both callers (lines 180 and 200) pass valid locations.
- Ticks.TimespecToTicks: requires `configTICK_RATE_HZ < 2^64`, because a build-time constant cast to `uint64_t` cannot exceed that. `TickType_t` is taken to be at most 64 bits wide.
- The widths of `time_t` and `long` are not modelled: fields are unbounded. `time_t` is taken to be 64 bits wide and `long` at least 32; under that assumption `Timespecs.NanosecondsToTimespec` proves its `tv_sec` fits `int64_t` and its `tv_nsec` fits `INT32_MAX`, and `Ticks.NanosecondTicksRoundUp` bounds the nanosecond tick contribution by `INT32_MAX`.
- The values of `EINVAL` (22) and `ETIMEDOUT` (116) come from the FreeRTOS+POSIX errno header, which is not part of this model. Only their being distinct, non-zero and different from 1 and -1 matters.
- `configTICK_RATE_HZ`, `NANOSECONDS_PER_TICK` and `TickType_t` come from configuration headers that are not part of this model. They are the `TickConfig` parameter. The relation `NANOSECONDS_PER_TICK = 1e9 / configTICK_RATE_HZ` is not imposed, and `Ticks.TicksAreCeiling` assumes it exactly.
- Pointer aliasing, such as an output pointer equal to an input pointer, is not modelled. Inputs and outputs are separate values.
- Callers of these utilities elsewhere in the POSIX layer (threads, mutexes, timed waits, clocks) are outside this file and not modelled.

## Findings

| source | as written | input that shows it | evidently intended | confidence | as-written member | corrected member |
|---|---|---|---|---|---|---|
| lib/FreeRTOS-Plus-POSIX/source/FreeRTOS_POSIX_utils.c:49 | The loop tests `*pcCharPointer != '\0'` before `xLength < xMaxLength`. When no NUL occurs among the first `xMaxLength` characters, it reads the character at index `xMaxLength`. | An unterminated buffer "abc" with `xMaxLength` = 3: the fourth character, outside the buffer, is read. | A bounded length scan that examines at most `xMaxLength` characters, like POSIX `strnlen`. The fix is to test the bound first. | medium; not executed; harmless for NUL-terminated strings | `Strings.StrnlenOverreadsWitness` | `Strings.StrnlenBounded` |
