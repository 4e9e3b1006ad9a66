# Verified models of the runtime support code

The repository carries a copy of the compiler-rt builtins (soft-float and wide
integer arithmetic, emulated thread-local storage, lock-based atomics) and a small
build tool that expands response files. These Dafny modules model that code and
prove what it promises. `dafny verify dfyconfig.toml` checks everything.

| file | what it models |
|---|---|
| `Words.dfy`, `DoubleWords.dfy` | machine words as bounded naturals: shifts, bit operations, two's complement, values held in two words |
| `Float32.dfy` | binary32 representations and rounding to nearest, ties to even (section 4.3.1 of IEEE 754-2008), as a relation between an exact rational and a bit pattern |
| `Reciprocal.dfy`, `DivSf3.dfy` | `__divsf3`: the wrapping Newton iteration, quotient, residual, rounding, special operands |
| `FpLib.dfy` | `normalize`, both multi-word `wideMultiply` versions, `wideRightShiftWithSticky` |
| `UDivMod.dfy` | `__udivmoddi4` and `__udivmodti4`: one model with the word size as a parameter |
| `SignedArith.dfy` | `__divti3`, `__modti3`, `__muloti4` |
| `IntToFloat.dfy` | `__floatundisf`, `__floatunsisf`, `__floatuntisf` |
| `EmuTlsIndex.dfy` | `emutls_get_index` as a transition system over any number of threads |
| `EmuTlsArray.dfy` | the per-thread address array and the aligned allocations behind it |
| `EmuTlsThreads.dfy` | whole runs: any number of threads obtain objects from one allocator and end |
| `LockTable.dfy`, `LockAtomics.dfy` | the hashed spinlocks and the locked atomic operations on ranges of bytes, byte by byte |
| `LockEffects.dfy` | what each atomic operation leaves in memory and hands back, and that calls can start |
| `LockTearing.dfy` | a run in which two stores across a line mix |
| `Tokenizer.dfy`, `ExpandArg.dfy` | the response-file tokenizer and the recursive expansion in one shared buffer |

Words are naturals below a power of two and every wrap-around is written out as a
remainder; specifications are over unbounded integers. Rounding is never computed
with reals: `RoundsTo(num, den, r)` compares the distance of `num/den` from every
representable value, with infinity taking part as 2^128.

## Where the code departs from its comments

* `__divsf3` says that it flushes denormals (`divsf3.c:13` and `divsf3.c:151`). It
  also flushes the quotient 2^-126, the smallest normal number, because the estimate
  falls below the implicit bit before rounding: 2^-126 divided by 1.0 gives zero
  (`SmallestNormalFlushed`). `DivSf3` states the exact condition: with the quotient
  written num/den in units of 2^-149, the result is the correctly rounded one if and
  only if num > 2^23 den (above 2^-126 in magnitude) or 2 num <= den (so small that
  zero is the rounded value); everything else comes back as a zero of the right sign.
* The error bound of the reciprocal is credited to exhaustive testing
  (`divsf3.c:99`). `EstimateAccuracy` derives the bounds that the rest of the
  function relies on from the error equation of the iteration, for every significand.
* The residual is said to stay below one unit of the quotient times b
  (`divsf3.c:126-128`). `ResidualBelowDivisor` states exactly when it does, in terms of
  the operands and the reciprocal, and `ResidualExceedsDivisor` gives significands of
  both branches for which it does not. `QuotientError` proves the bound that always
  holds, 9/8 of a unit, and the rounding needs no more.
* The 128-bit `wideMultiply` can return a high half that is one too small: the carry
  out of `r0 + (r1 << 64)` is lost (`fp_lib.h:194`). `WideMultiply128` gives the exact
  condition and `CarryDroppedWitness` a pair of operands that meets it, of the form
  the quad-precision multiplication passes (`fp_mul_impl.inc:75`).
* The lock table means to give all bytes of one memory operation the same lock
  (`atomic.c:111-114`), but looks only at the line in which an operation starts.
  `Linearizable` holds when overlapping calls in progress start in one line; otherwise
  they can take different locks and mix (`StoresMix`).
* At the end of a file, `expandArg` appends the EOF value as a stray byte when no
  argument is under way; the model keeps that byte, and the contract shows that it is
  never written.

## Model

| member | source | states |
|---|---|---|
| Float32.RoundsToUnique | src/compiler-rt/builtins/divsf3.c:10-11 | no value rounds to two patterns, so every "correctly rounded" contract fixes the result |
| Float32.RoundsToMonotone | src/compiler-rt/builtins/divsf3.c:10-11 | rounding preserves order |
| Float32.RoundsToInfinity | src/compiler-rt/builtins/divsf3.c:145-148 | infinity is the rounded value exactly from 2^128 - 2^103 up |
| Reciprocal.NoWrap | src/compiler-rt/builtins/divsf3.c:91-97 | the 32-bit truncation of a Newton step changes nothing while the exact step fits a word |
| Reciprocal.ErrorEquation | src/compiler-rt/builtins/divsf3.c:84-97 | the error after one wrapping, twice-truncated Newton step in terms of the square of the error before it |
| Reciprocal.EstimateOfOne | src/compiler-rt/builtins/divsf3.c:102-105 | for b = 1.0 the third step wraps to 0 and the bump turns it into a good estimate |
| Reciprocal.EstimateAccuracy | src/compiler-rt/builtins/divsf3.c:81-109 | for all significands the final reciprocal is strictly below 2^63/q31b and short of it by fewer than 16 units |
| DivSf3.NoTie | src/compiler-rt/builtins/divsf3.c:130-131 | the exact halfway case cannot occur |
| DivSf3.NewtonReciprocal | src/compiler-rt/builtins/divsf3.c:82-109 | for every aligned significand the imperative iteration returns a reciprocal strictly below 2^63/q31b and short of it by fewer than 16 units |
| DivSf3.SpecialCases | src/compiler-rt/builtins/divsf3.c:34-68 | a NaN operand comes back with its quiet bit set, infinities and zeros give what IEEE 754 asks; otherwise both significands come back normalised with the exponent adjustment |
| DivSf3.QuotientAndResidual | src/compiler-rt/builtins/divsf3.c:119-143 | the quotient is a 24-bit significand, and the wrapped residual equals a * 2^24 - q * b (a * 2^23 - q * b when a > b), positive and below two divisors |
| DivSf3.QuotientError | src/compiler-rt/builtins/divsf3.c:107-118 | the quotient is strictly below a/b, by less than 9/8 of a unit |
| DivSf3.QuotientIsFloor | src/compiler-rt/builtins/divsf3.c:107-119 | the quotient is the floor of a/b, and misses less than one unit, exactly when the reciprocal's shortfall times a is below what the truncated product leaves |
| DivSf3.ResidualBelowDivisor | src/compiler-rt/builtins/divsf3.c:121-141 | the residual stays below the divisor, as the comment says, if and only if the quotient is the floor or an even quotient is halved |
| DivSf3.ResidualExceedsDivisor | src/compiler-rt/builtins/divsf3.c:121-141 | significands whose residual exceeds the divisor, one pair for each branch |
| DivSf3.Encode | src/compiler-rt/builtins/divsf3.c:145-166 | sign, overflow, flush and rounding; a carry out of the significand lands in the exponent |
| DivSf3.DivSf3 | src/compiler-rt/builtins/divsf3.c:23-167 | for all operands: sign, infinities, zeros and NaNs; the magnitude is correctly rounded if and only if the quotient exceeds 2^-126 or rounds to zero, and is zero otherwise |
| DivSf3.DividesUnique | src/compiler-rt/builtins/divsf3.c:23-167 | that contract determines every bit of the result, for all operands |
| DivSf3.NaNResults | src/compiler-rt/builtins/divsf3.c:39-61 | the result is a NaN exactly for NaN operands, infinity over infinity and zero over zero, and is always quiet |
| DivSf3.NormalQuotientsRounded | src/compiler-rt/builtins/divsf3.c:143-166 | every quotient above 2^-126 is rounded correctly, and is infinity exactly from 2^128 - 2^103 up |
| DivSf3.SmallestNormalFlushed | src/compiler-rt/builtins/divsf3.c:150-154 | a normal quotient that the code flushes although its comment speaks of denormals only |
| FpLib.Normalize | src/compiler-rt/builtins/fp_lib.h:241-245 | a subnormal significand is scaled to the implicit bit by the power of two it reports |
| FpLib.WideMultiply64 | src/compiler-rt/builtins/fp_lib.h:86-98 | the two halves are the exact product |
| FpLib.WideMultiply128 | src/compiler-rt/builtins/fp_lib.h:151-202 | the low half is exact; the high half is exact, or one short precisely when r0 + (r1 << 64) wraps |
| FpLib.CarryDroppedWitness | src/compiler-rt/builtins/fp_mul_impl.inc:75-76 | two 113-bit significands for which the product that the quad-precision multiplication forms loses the carry |
| FpLib.WideRightShiftWithSticky | src/compiler-rt/builtins/fp_lib.h:252-267 | in all three branches: the floor of the shifted double word with its low bit set when a dropped bit was 1 |
| FpLib.StickyShiftBits | src/compiler-rt/builtins/fp_lib.h:252-267 | the bits of that shift: those of the quotient by 2^count, the lowest also set exactly when the remainder is not 0 |
| FpLib.StickyShiftCompose | src/compiler-rt/builtins/fp_lib.h:252-267 | two shifts equal one shift by the sum of the counts |
| UDivMod.BranchlessSubtract | src/compiler-rt/builtins/udivmoddi4.c:216-225 | the sign of the wrapping d - r - 1 is set exactly when r >= d, and carry and r follow |
| UDivMod.LoopStep | src/compiler-rt/builtins/udivmoddi4.c:208-226 | one iteration keeps r < d, the shifted r is below 2d and does not overflow, and q, r, carry and sr still reconstruct the dividend |
| UDivMod.LoopExit | src/compiler-rt/builtins/udivmoddi4.c:227-230 | after the last iteration q with the final carry is the quotient and r the remainder |
| UDivMod.ShiftSubtract | src/compiler-rt/builtins/udivmodti4.c:207-235 | the loop, started from any alignment that meets its invariant, divides |
| UDivMod.LowWordZero | src/compiler-rt/builtins/udivmodti4.c:59-120 | divisors with a zero low word: exact division, power of two, early 0, aligned loop |
| UDivMod.OneWordDivisor | src/compiler-rt/builtins/udivmodti4.c:123-172 | one-word divisors: power of two, and the three alignments of q:r |
| UDivMod.TwoWordDivisor | src/compiler-rt/builtins/udivmodti4.c:173-205 | two-word divisors, with the early return of 0 |
| UDivMod.UDivModDI4 | src/compiler-rt/builtins/udivmoddi4.c:23-231 | floor quotient and remainder for all 64-bit a and all b != 0 |
| UDivMod.UDivModTI4 | src/compiler-rt/builtins/udivmodti4.c:25-236 | floor quotient and remainder for all 128-bit a and all b != 0 |
| SignedArith.TruncatedMeaning | src/compiler-rt/builtins/divti3.c:19-31 | truncation toward zero (section 6.5.5 of ISO/IEC 9899:2011) is the only quotient whose remainder is smaller than the divisor and has the dividend's sign |
| SignedArith.DivTI3 | src/compiler-rt/builtins/divti3.c:21-31 | the truncated quotient for all b != 0, with (MIN, -1) wrapping to MIN |
| SignedArith.ModTI3 | src/compiler-rt/builtins/modti3.c:21-32 | the remainder of that quotient, MIN operands included |
| SignedArith.DivMod | src/compiler-rt/builtins/modti3.c:19-32 | calling both: the remainder is smaller than the divisor and of the dividend's sign or zero, and quotient and remainder reassemble the dividend for every pair but (MIN, -1) |
| SignedArith.MulOTI4 | src/compiler-rt/builtins/muloti4.c:23-60 | overflow is set exactly when the product is outside [-2^127, 2^127); the result is always the one number in that range congruent to the product modulo 2^128 |
| IntToFloat.ToFloatRounds | src/compiler-rt/builtins/floatundisf.c:15-74 | the bits all three conversions return are the integer rounded to nearest, ties to even |
| IntToFloat.HalfwayGoesToEven | src/compiler-rt/builtins/floatundisf.c:54-57 | a number halfway between two 24-bit neighbours takes the one with an even significand |
| IntToFloat.Window | src/compiler-rt/builtins/floatundisf.c:43-53 | the switch leaves 24 leading bits, the bit after them, and the or of the rest |
| IntToFloat.FloatUnDISF | src/compiler-rt/builtins/floatundisf.c:25-75 | P/Q/R rounding returns those bits for all 64-bit a |
| IntToFloat.FloatUnTISF | src/compiler-rt/builtins/floatuntisf.c:27-77 | and for all 128-bit a |
| IntToFloat.FloatUnSISF | src/compiler-rt/builtins/floatunsisf.c:21-48 | comparing the shifted-out remainder with signBit returns the same bits for all 32-bit a |
| IntToFloat.ToFloatMonotone | src/compiler-rt/builtins/floatundisf.c:15-74 | conversion preserves order |
| IntToFloat.ToFloatInfinity | src/compiler-rt/builtins/floatuntisf.c:59-76 | the result is infinity exactly when a >= 2^128 - 2^103 |
| IntToFloat.ToFloatExact | src/compiler-rt/builtins/floatundisf.c:66-70 | integers below 2^24 convert exactly |
| EmuTlsIndex.RoomForOne | src/compiler-rt/builtins/emutls.c:296 | the counter cannot wrap while a control is without an index |
| EmuTlsIndex.StepKeepsInv | src/compiler-rt/builtins/emutls.c:289-302 | every memory access of every thread keeps the allocator's invariant |
| EmuTlsIndex.RunKeepsIndex | src/compiler-rt/builtins/emutls.c:288-302 | once nonzero, a control's index never changes |
| EmuTlsIndex.CallsAgree | src/compiler-rt/builtins/emutls.c:288-302 | in every interleaving two calls return the same index if and only if they name the same control, and it lies in 1..emutls_num_object |
| EmuTlsIndex.MutualExclusion | src/compiler-rt/builtins/emutls.c:293-299 | one thread at a time is between lock and unlock |
| EmuTlsIndex.FreeMeansDense | src/compiler-rt/builtins/emutls.c:231-302 | while the mutex is free the indices in use are exactly 1..emutls_num_object |
| EmuTlsIndex.IndexFits | src/compiler-rt/builtins/emutls.c:250-262 | control variables do not overlap, so every index handed out is below 2^60 |
| EmuTlsIndex.ThreadsCanMove | src/compiler-rt/builtins/emutls.c:289-302 | a thread can always move unless it waits while another holds the mutex; a control that has its index needs no mutex |
| EmuTlsIndex.HolderAdvances | src/compiler-rt/builtins/emutls.c:293-299 | the mutex's holder can always move, and every move leads nearer to the unlock and the return |
| EmuTlsArray.NewSizeFits | src/compiler-rt/builtins/emutls.c:313-322 | for every index, wrap-around at the top of the range included: size + 1 is a multiple of 16 and the size is at least the index and at most 15 above it |
| EmuTlsArray.AsizeFits | src/compiler-rt/builtins/emutls.c:324-329 | the array's byte count does not wrap for any index that can be handed out |
| EmuTlsArray.AlignedBase | src/compiler-rt/builtins/emutls.c:47-52 | the masked address is aligned, with room for a pointer before it and the object after it |
| EmuTlsArray.Heap.MemalignAlloc | src/compiler-rt/builtins/emutls.c:41-57 | an aligned object inside a block of its own, with the block's address in the word in front |
| EmuTlsArray.Heap.MemalignFree | src/compiler-rt/builtins/emutls.c:59-66 | frees the block named by the word in front of the object |
| EmuTlsArray.ThreadStorage.GetAddressArray | src/compiler-rt/builtins/emutls.c:331-353 | an array of the required size; stored addresses survive the growth and new slots are NULL |
| EmuTlsArray.ThreadStorage.GetAddress | src/compiler-rt/builtins/emutls.c:265-361 | the stored address if there is one, with nothing changed; else a fresh aligned object behind its header word, and no other slot, size, block or word changes; abort exactly on a new object whose alignment is no power of two |
| EmuTlsArray.NewObjectMeets | src/compiler-rt/builtins/emutls.c:265-285 | of a new object in terms of the control alone: a multiple of 8 and of its alignment, in a block of alignment - 1 + 8 + size bytes; abort exactly on an alignment of 8 or more that is no power of two |
| EmuTlsArray.ThreadStorage.Shutdown | src/compiler-rt/builtins/emutls.c:233-243 | frees each of this thread's blocks once and no other |
| EmuTlsThreads.RunKeepsInv | src/compiler-rt/builtins/emutls.c:233-361 | in every reachable state of any number of threads: live blocks are apart, every live thread's objects are stored in blocks of its own, no two threads share a block, and every block has an owner |
| EmuTlsThreads.SameAddressForever | src/compiler-rt/builtins/emutls.c:355-361 | all calls of one thread for one control return one address, whatever calls, growths and threads lie between |
| EmuTlsThreads.AddressesAligned | src/compiler-rt/builtins/emutls.c:270-279 | every address any call of a run returns meets the alignment of its control |
| EmuTlsThreads.OnlyRequested | src/compiler-rt/builtins/emutls.c:331-361 | a slot of a live thread is NULL exactly when the thread never asked for it |
| EmuTlsThreads.ObjectsOfThreadsDisjoint | src/compiler-rt/builtins/emutls.c:41-57 | in every reachable state any two objects that live threads obtained have different addresses and do not overlap, header words included, unless they are one control's object in one thread |
| EmuTlsThreads.ObjectLives | src/compiler-rt/builtins/emutls.c:233-285 | no object is freed while its thread lives |
| EmuTlsThreads.NothingLeaks | src/compiler-rt/builtins/emutls.c:233-243 | once every thread that obtained an object has ended, every block is freed |
| EmuTlsThreads.AddressNamesControl | src/compiler-rt/builtins/emutls.c:288-361 | together with the index allocator: two calls of one thread return one address if and only if they name the same control variable |
| LockTable.LockForBits | src/compiler-rt/builtins/atomic.c:109-123 | the hash stays inside the table, whatever the sign of the pointer, and mixes ten bits with ten higher ones |
| LockTable.LineSharesLock | src/compiler-rt/builtins/atomic.c:111-114 | all addresses of one 16-byte line use one lock |
| LockTable.NearbyLinesSpread | src/compiler-rt/builtins/atomic.c:115-122 | within a megabyte two addresses share a lock exactly when their lines are congruent mod 1024 |
| LockAtomics.StepKeepsInv | src/compiler-rt/builtins/atomic.c:90-226 | every byte-level step keeps the link between memory, lock words and the log of unlocked calls, for overlapping ranges too as long as calls in progress that overlap start in one line |
| LockAtomics.ApartInside | src/compiler-rt/builtins/atomic.c:109-123 | through the hash, two threads inside are at work on disjoint ranges |
| LockAtomics.StepKeepsCall | src/compiler-rt/builtins/atomic.c:162-226 | a thread carries out the call it began, and logs it as it unlocks |
| LockAtomics.MutualExclusion | src/compiler-rt/builtins/atomic.c:95-102 | at most one thread holds a lock, spurious failures of the weak exchange included |
| LockAtomics.HolderAdvances | src/compiler-rt/builtins/atomic.c:91-102 | a taken lock always has a holder that can move, and every move open to it brings the unlock nearer |
| LockAtomics.HolderReleases | src/compiler-rt/builtins/atomic.c:91-102 | a lock taken at some state of a run is released by the time its holder has moved as often as its position requires, whatever the others do |
| LockAtomics.Linearizable | src/compiler-rt/builtins/atomic.c:160-226 | in every interleaving of calls on byte ranges, overlapping ones included if they start in one line, results and memory equal running the operations whole in unlock order |
| LockEffects.CallsDoTheirWork | src/compiler-rt/builtins/atomic.c:162-226 | in every run, what each logged load, store, exchange and compare-exchange leaves in its range and hands back, in terms of what the calls before it left there; a failed comparison changes nothing |
| LockEffects.FetchesCombine | src/compiler-rt/builtins/atomic.c:312-338 | the number a logged fetch-add or fetch-sub leaves, modulo its width, and each bit that fetch-and, fetch-or and fetch-xor leave |
| LockEffects.CallsTouchNothingElse | src/compiler-rt/builtins/atomic.c:162-226 | a logged call changes no byte outside its range |
| LockEffects.OneByteAtATime | src/compiler-rt/builtins/atomic.c:162-226 | calls interleave at every byte: a step writes or copies one byte at most |
| LockEffects.CallsCanBegin | src/compiler-rt/builtins/atomic.c:162-226 | a thread between calls may begin any call whose operands fit its range |
| LockEffects.WaitersCanEnter | src/compiler-rt/builtins/atomic.c:95-102 | a waiting thread can take a free lock, may fail to without a reason, and tries again |
| LockTearing.StoresMix | src/compiler-rt/builtins/atomic.c:109-123 | two overlapping ranges that start in different lines: a run whose final memory is that of neither order of its two stores |
| LockAtomics.QuiescentMemory | src/compiler-rt/builtins/atomic.c:160-226 | with nobody inside, memory is that of the sequential run |
| LockAtomics.ReturnsAreLogged | src/compiler-rt/builtins/atomic.c:162-226 | a call is logged exactly once, between its beginning and its return, with the result its caller is handed |
| LockAtomics.RealTimeOrder | src/compiler-rt/builtins/atomic.c:162-226 | a call that has returned before another begins stands before it in the log |
| LockAtomics.ValuesAreWhole | src/compiler-rt/builtins/atomic.c:160-226 | no tearing in any interleaving: on a range no call overlaps in part, what a call hands back, and what the range holds when nobody is at work on it, is its first value or one put there whole by a single logged call |
| LockAtomics.UpdatesAddUp | src/compiler-rt/builtins/atomic.c:312-329 | in any interleaving a counter that nobody is at work on holds its first value plus the sum of all logged fetch-adds and fetch-subs, modulo its width |
| Tokenizer.TokensOfJoin | nix/overlay/build-support/expand-response-params/expand-response-params.c:26-70 | each of the six white-space bytes separates two texts if and only if the first ends in state outside or unq |
| Tokenizer.OnlyTheseSeparate | nix/overlay/build-support/expand-response-params/expand-response-params.c:37-40 | no other byte separates |
| Tokenizer.SingleBytes | nix/overlay/build-support/expand-response-params/expand-response-params.c:26-40 | what each of the 256 bytes is on its own: an argument, a separator, or an empty argument under way |
| Tokenizer.QuotesAreLiteral | nix/overlay/build-support/expand-response-params/expand-response-params.c:26-35 | between quotes everything but the backslash and that quote stands for itself |
| Tokenizer.BackslashKeeps | nix/overlay/build-support/expand-response-params/expand-response-params.c:26-35 | a backslash keeps any byte, outside quotes and in either kind |
| Tokenizer.TokensOfDocument | nix/overlay/build-support/expand-response-params/expand-response-params.c:26-70 | however arguments are written with quotes and backslashes, tokenizing gives them back |
| Tokenizer.MendKeepsTokens | nix/overlay/build-support/expand-response-params/expand-response-params.c:45-46 | a malformed text yields the arguments of the same text with its last quote closed, an empty last argument included |
| Tokenizer.TokensAreGrammatical | nix/overlay/build-support/expand-response-params/expand-response-params.c:26-70 | conversely, the arguments of any text are those some writing in the grammar spells |
| Tokenizer.QuotingRoundTrip | nix/overlay/build-support/expand-response-params/expand-response-params.c:26-70 | tokenizing undoes double quoting for every list of arguments |
| ExpandArg.Buffer.Resize | nix/overlay/build-support/expand-response-params/expand-response-params.c:9-16 | contents survive up to the new length; the capacity grows to twice the length, or stays |
| ExpandArg.Buffer.Append | nix/overlay/build-support/expand-response-params/expand-response-params.c:18-21 | the contents gain exactly the given bytes, whether or not the buffer moves |
| ExpandArg.NamedFile | nix/overlay/build-support/expand-response-params/expand-response-params.c:49 | an argument refers to a file when it is an at sign followed by the file's name, up to the first NUL |
| ExpandArg.WrittenBytes | nix/overlay/build-support/expand-response-params/expand-response-params.c:42-50 | each argument written is followed by one NUL byte |
| ExpandArg.Expand | nix/overlay/build-support/expand-response-params/expand-response-params.c:47-73 | whatever the depth of inclusion, the output of the shared-buffer recursion is that of the pure expansion, the stray EOF byte included in neither |
| ExpandArg.ExpandArguments | nix/overlay/build-support/expand-response-params/expand-response-params.c:75-84 | likewise for a whole command line |
| ExpandArg.DepthIrrelevant | nix/overlay/build-support/expand-response-params/expand-response-params.c:42-46 | the expansion does not depend on the bound that shows the inclusion to end |
| ExpandArg.NestsUnlessCyclic | nix/overlay/build-support/expand-response-params/expand-response-params.c:42-73 | inclusion nests to a bounded depth from exactly the arguments that reach no cycle, and then no deeper than there are files |
| ExpandArg.ExpansionFinal | nix/overlay/build-support/expand-response-params/expand-response-params.c:42-46 | no argument written out still refers to a file that can be opened |
| ExpandArg.OutputDecodes | nix/overlay/build-support/expand-response-params/expand-response-params.c:42-43 | a reader that splits the output at NULs recovers the arguments |
| ExpandArg.PlainArguments | nix/overlay/build-support/expand-response-params/expand-response-params.c:43-44 | arguments that name no file are written as they are |
| ExpandArg.ResponseFileStandsForArguments | nix/overlay/build-support/expand-response-params/expand-response-params.c:42-73 | a response file of quoted arguments gives the same output as the arguments themselves |

## Left out

- Division by zero in the integer routines: undefined behaviour in C.
- `divdf3.c`, `divtf3.c`: the same shape as `divsf3.c` at more precision.
- `fp_add`, `fp_mul`, `fp_trunc`, `fp_extend` and `fp_fixint`: their implementation files are not part of this model.
- `wideLeftShift` and the one-multiplication 32-bit `wideMultiply`: nothing beyond a machine operation.
- FpLib.WideRightShiftWithSticky: counts 0 and typeWidth are excluded, because the C code then shifts a word by its full width.
- UDivMod.UDivModTI4: the null `rem` pointer is not modelled; the remainder is always returned.
- EmuTlsArray.Heap.MemalignAlloc: sizes for which the sum of alignment, header and size passes 2^64 are excluded. The C sum wraps, malloc returns a short block and the object does not fit it.
- EmuTlsArray.ThreadStorage.GetAddress: the index is a parameter here and EmuTlsIndex provides it; the address malloc returns is a parameter too, and failed allocations, which abort, are not modelled. Sizes whose byte count wraps are excluded, as for MemalignAlloc.
- EmuTlsArray.ThreadStorage.GetAddressArray: indices are below 2^60, which `IndexFits` shows of every index handed out; the emutls_address_array block itself is an array of the language, not a block of the modelled heap.
- EmuTlsThreads.RunKeepsInv: a call of `__emutls_get_address` is one step, because threads share only the allocator, which serialises itself; a call that aborts ends the process, so no run goes on from it.
- The contents of thread-local objects (the memcpy or memset after allocation), the `posix_memalign` variant, the pthread key and its destructor, and the Windows half of `emutls.c`.
- The pthread mutex and `pthread_once` are atomic primitives of EmuTlsIndex, and all memory accesses are sequentially consistent; weak memory ordering is not modelled.
- The lock-free branches of `atomic.c` (sizes 2, 4 and 8 where the hardware has them, and size 1 in the sized entry points): compiler intrinsics. The generic lock-free store writes back `*dest` instead of `*src` (`atomic.c:178`), so nothing here covers it.
- The FreeBSD and Apple lock implementations: operating-system calls.
- LockAtomics.Linearizable: the caller's own buffers are values, not aliases of shared memory, and overlapping calls in progress start in one sixteen-byte line, without which the property is false.
- LockAtomics.HolderAdvances: a waiting thread may still lose every race for the lock, as the comment at `atomic.c:95` admits.
- ExpandArg.Expand: files are a fixed map, so stdio failures and files that change while being read are not modelled; an argument from which a cycle of inclusion is reached is excluded, since expanding it never ends.
- ExpandArg.Buffer.Resize: `size_t` is unbounded and realloc does not fail.
- The C library's complex-number functions and headers, and the kernel-side code for hypercalls, memory mapping, logging, set-up and CPU detection: they are formulas over other library functions, declarations, and calls into hardware or the host.
- The one-expression bit routines (shifts, byte swaps, parity, comparison, negation): `clz` and `ctz` appear through their mathematical meaning only.
