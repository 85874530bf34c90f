# Verified models of the Abseil headers shipped with the TensorFlow build

The repository ships TensorFlow's C++ headers; the algorithms in them that can be
read in full are Abseil's. This project models those algorithms in Dafny and proves
what their documentation promises. `dafny verify dfyconfig.toml` checks it.

| file | models |
|---|---|
| `Memory.dfy` | raw, live and moved-from cells, the allocator, and the standard algorithms the containers call |
| `Wrappers.dfy` | an optional value |
| `Growth.dfy`, `Powers.dfy` | capacity doubling on a 64-bit `size_type` |
| `InlinedVector.dfy` | `absl::InlinedVector` and its storage: tagged size word, inline slots overlaid with the heap pointer, every mutator |
| `Fleet.dfy` | runs that create, change and destroy any number of vectors that share an allocator |
| `Uint128.dfy` | `absl::uint128` on two 64-bit limbs, with the portable multiplication |
| `CallOnce.dfy` | `absl::call_once` as a transition system |
| `HashLaws.dfy`, `SuffixFree.dfy` | the hash-law checker, and why containers hash their contents and then their size |
| `StrReplace.dfy` | `FindSubstitutions` |
| `FixedArray.dfy` | `ConstructRange`, `CopyRange` and `absl::FixedArray` with constructors that may throw |

How the models read the code:

- **Memory.** A block is an array of cells. Constructing requires a raw cell; reading,
  assigning, moving from and destroying require an object; freeing requires an
  outstanding block of the given length without objects. These rules are the
  preconditions of the primitives in `Memory.dfy`, so a method that verifies cannot
  break them. Building an object in inline space makes the stored heap pointer
  unreadable. A moved-from object is alive with unspecified contents.
- **Arguments by reference.** A `const T&` argument is a value of the caller's or a cell
  in memory, read at the point where the code reads it.
- **Iterators** are a block and an index; a move iterator is one whose reads move. An
  input iterator is a sequence of values taken one at a time.
- **call_once.** Each step is one atomic access. The wait loop reads the word, picks the
  row of the transition table, and compare-exchanges in a separate step, which may fail.
  The load and the store after the function are two steps. A schedule is any sequence
  of call numbers; a fair one is a sequence of rounds that name every call.
- **Hash expansion** is a function of the value and of the number of the call to
  `expand()`, so that a non-deterministic expansion can be reported. Equal values are
  compared by the list of pieces they feed to the hash state, unequal ones by their bytes,
  as the code does; equal values that split the same bytes differently therefore fail.
- **Throwing constructors** are given by a predicate on the index of the cell. A move
  constructor that throws is taken to leave its source as it was.

Where the code departs from its documentation, or is right only for some calls, the model
follows the code:

- `pop_back` on an empty vector is documented as a no-op
  (distribution/tensorflow/include/absl/container/inlined_vector.h:725-726), but the code
  adds `size_type(-1)` to the size, which wraps to `max_size()` (`AddMinusOne`). The
  operation therefore requires a non-empty vector, as the assertion in the code does.
- Growth is not checked for overflow by the code. The loop is right exactly for targets up
  to `Top(capacity)`, which always exceeds `max_size()` (`GrowthIsRightIff`); beyond, it may
  run for ever (`PowersOfTwoNeverStop`) or stop at a wrong capacity (`GrowthCanStopWrong`).
- `assign(n, v)` and `resize(n, v)` with a `v` that is an element of the vector are right
  exactly when `n` fits the capacity: otherwise `reserve` destroys the element before it is
  read (`Reserve`). The two operations require that.

## Model

| member | source | states |
|---|---|---|
| `Fleets.Fleet.Run` | distribution/tensorflow/include/absl/container/inlined_vector.h:464-846 | for every run that creates (empty, by count, by range, by copy, by move), changes and destroys any number of vectors sharing an allocator: slots are constructed only when raw and read, assigned or destroyed only when they hold an object, the contents and capacities are those of the same run on plain sequences, no two vectors share memory, and the outstanding heap blocks are exactly the owned ones |
| `Fleets.Lifetime` | distribution/tensorflow/include/absl/container/internal/inlined_vector.h:170-175 | any run that starts without vectors, followed by the destruction of those left, leaves no block outstanding (that none is freed twice is the precondition of `Deallocate`, checked at every call) |
| `Fleets.Fleet.DestroyAll` | distribution/tensorflow/include/absl/container/internal/inlined_vector.h:283-294 | destroying all vectors of a fleet frees every outstanding block |
| `Fleets.Fleet.Take` | distribution/tensorflow/include/absl/container/inlined_vector.h:464-846 | one step keeps the fleet invariant and changes contents and capacities exactly as the step on sequences does |
| `Fleets.Perform` | distribution/tensorflow/include/absl/container/inlined_vector.h:464-846 | each single-vector operation refines its sequence operation and its rule for the capacity; an argument that is an element of the vector counts with the value it had on entry |
| `Fleets.PushPopRun` | distribution/tensorflow/include/absl/container/inlined_vector.h:691-731 | on a newly constructed vector, any pushes and pops that stay within `max_size()` leave the contents of a stack, and `m > 0` pushes relocate fewer than `2m` elements in all |
| `Fleets.Fleet.Changed` | distribution/tensorflow/include/absl/container/inlined_vector.h:848-867 | changing, or creating, one or two vectors cannot invalidate another that shares their allocator |
| `Fleets.Fleet.DoInsertRange` | distribution/tensorflow/include/absl/container/inlined_vector.h:641-648 | inserting any range of one vector into another copies it, or moves it and leaves moved-from elements behind |
| `Fleets.Fleet.DoCreateMove` | distribution/tensorflow/include/absl/container/inlined_vector.h:191-211 | a vector made by moving has the contents, capacity and block of its source, which stays valid: empty if its block was taken, else full of moved-from elements |
| `InlinedVectors.InlinedVector.ShiftRight` | distribution/tensorflow/include/absl/container/inlined_vector.h:928-992 | in all three regimes (new block, gap inside used space, gap past the end): prefix and suffix keep their values, the gap has exactly `n` cells, the first `min(n, size - pos)` of them (none after reallocation) hold moved-from objects and the rest are raw; the capacity is the least sufficient doubling, and there is no reallocation when the elements fit |
| `InlinedVectors.InlinedVector.ShiftInPlace` | distribution/tensorflow/include/absl/container/inlined_vector.h:966-988 | the two-part move: construction into raw cells and overlapping backward moves lose no value |
| `InlinedVectors.InlinedVector.ShiftIntoNewBlock` | distribution/tensorflow/include/absl/container/inlined_vector.h:943-964 | reallocation with a gap: both parts arrive, the old elements are destroyed and the old block freed |
| `InlinedVectors.GapFilled` | distribution/tensorflow/include/absl/container/inlined_vector.h:1013-1044 | filling an opened gap, whatever its split, is insertion into the sequence |
| `InlinedVectors.OpenedIsGap` | distribution/tensorflow/include/absl/container/inlined_vector.h:928-934 | exactly the cells past the used part of the gap are raw |
| `InlinedVectors.InlinedVector.InsertWithCount` | distribution/tensorflow/include/absl/container/inlined_vector.h:1013-1024 | contents become `xs[..p] + n copies + xs[p..]`, also when the value is an element of the vector |
| `InlinedVectors.InlinedVector.FillGap` | distribution/tensorflow/include/absl/container/inlined_vector.h:1020-1021 | assigns in the live part of the gap, constructs in the raw part |
| `InlinedVectors.InlinedVector.InsertWithForwardRange` | distribution/tensorflow/include/absl/container/inlined_vector.h:1026-1044 | contents become `xs[..p] + range + xs[p..]`; the source range is unchanged, or moved-from through move iterators |
| `InlinedVectors.InlinedVector.CopyIntoGap` | distribution/tensorflow/include/absl/container/inlined_vector.h:1039-1042 | the first part of the range is assigned over moved-from objects, the rest is constructed |
| `InlinedVectors.InlinedVector.InsertInputRange` | distribution/tensorflow/include/absl/container/inlined_vector.h:650-662 | inserting one value at a time gives the contents and the capacity of the single-shift insertion |
| `Growth.GrownTwice` | distribution/tensorflow/include/absl/container/inlined_vector.h:653-662 | growing in steps reaches the capacity that growing at once reaches |
| `InlinedVectors.InlinedVector.Emplace` | distribution/tensorflow/include/absl/container/inlined_vector.h:613-689 | inserts one value before `pos`; the value is read before anything moves |
| `InlinedVectors.InlinedVector.EmplaceBack` | distribution/tensorflow/include/absl/container/inlined_vector.h:691-721 | appends the value the argument had on entry; relocates `size` elements exactly when full |
| `InlinedVectors.InlinedVector.GrowAndEmplaceBack` | distribution/tensorflow/include/absl/container/inlined_vector.h:994-1011 | the new element is built from its argument before the old elements are moved; capacity doubles |
| `InlinedVectors.InlinedVector.PopBack` | distribution/tensorflow/include/absl/container/inlined_vector.h:723-731 | removes the last element |
| `InlinedVectors.AddMinusOne` | distribution/tensorflow/include/absl/container/inlined_vector.h:723-731 | adding `size_type(-1)` subtracts one exactly when the vector is not empty; on an empty one the size wraps to `max_size()` |
| `InlinedVectors.SizeWordPlusKeepsTag` | distribution/tensorflow/include/absl/container/internal/inlined_vector.h:177-224 | `AddSize` keeps the is-allocated bit and adds to the size modulo 2^63 |
| `InlinedVectors.InlinedVector.AddSize` | distribution/tensorflow/include/absl/container/internal/inlined_vector.h:224-224 | the tagged word after any addition, carries included |
| `InlinedVectors.InlinedVector.EraseAt` | distribution/tensorflow/include/absl/container/inlined_vector.h:733-747 | contents become `xs[..p] + xs[p+1..]`, in the same block |
| `InlinedVectors.InlinedVector.EraseRange` | distribution/tensorflow/include/absl/container/inlined_vector.h:749-776 | contents become `xs[..a] + xs[b..]`, in the same block |
| `InlinedVectors.InlinedVector.Clear` | distribution/tensorflow/include/absl/container/inlined_vector.h:778-785 | empty and inline, the block freed |
| `InlinedVectors.InlinedVector.DestroyAndDeallocate` | distribution/tensorflow/include/absl/container/internal/inlined_vector.h:283-294 | every element destroyed, the block freed iff there is one |
| `InlinedVectors.InlinedVector.Reserve` | distribution/tensorflow/include/absl/container/inlined_vector.h:787-801 | contents kept; capacity is the least doubling that holds `n`; a reference to an element stays good if and only if `n` fits the capacity |
| `InlinedVectors.InlinedVector.EnlargeBy` | distribution/tensorflow/include/absl/container/inlined_vector.h:903-926 | moves the elements to a block of the least sufficient doubled capacity |
| `InlinedVectors.InlinedVector.ResetAllocation` | distribution/tensorflow/include/absl/container/inlined_vector.h:852-867 | destroys the old elements, frees the old block iff allocated, adopts the new one |
| `InlinedVectors.InlinedVector.Resize` | distribution/tensorflow/include/absl/container/inlined_vector.h:559-607 | truncates, or appends copies of the value, also when it is an element of the vector and `n` fits the capacity |
| `InlinedVectors.InlinedVector.AssignCount` | distribution/tensorflow/include/absl/container/inlined_vector.h:490-511 | contents become `n` copies of the value on entry, also when it is an element of the vector and `n` fits the capacity |
| `InlinedVectors.InlinedVector.AssignForwardRange` | distribution/tensorflow/include/absl/container/inlined_vector.h:520-543 | contents become the range |
| `InlinedVectors.InlinedVector.AssignInputRange` | distribution/tensorflow/include/absl/container/inlined_vector.h:545-557 | contents become the values, taken one at a time, and the capacity is that of growing once |
| `InlinedVectors.InlinedVector.CopyAssignFrom` | distribution/tensorflow/include/absl/container/inlined_vector.h:449-457 | contents become the other vector's; self-assignment changes nothing |
| `InlinedVectors.InlinedVector.MoveAssign` | distribution/tensorflow/include/absl/container/inlined_vector.h:459-488 | takes over the other's block, or moves its inline elements one by one; the other ends empty or full of moved-from objects; the old block is freed |
| `InlinedVectors.InlinedVector.MoveFrom` | distribution/tensorflow/include/absl/container/inlined_vector.h:191-211 | the move constructor: steals the block or moves the inline elements |
| `InlinedVectors.InlinedVector.FromCount` | distribution/tensorflow/include/absl/container/inlined_vector.h:124-129 | `n` copies, inline or in a block of exactly `n` |
| `InlinedVectors.InlinedVector.FromRange` | distribution/tensorflow/include/absl/container/inlined_vector.h:136-174 | the range (or the copied vector), copied or moved, inline or in a block of exactly its length |
| `InlinedVectors.InlinedVector.BeginInitialize` | distribution/tensorflow/include/absl/container/internal/inlined_vector.h:296-324 | `Initialize`: more than `N` elements get a block of exactly their number |
| `InlinedVectors.InlinedVector.ShrinkToFit` | distribution/tensorflow/include/absl/container/inlined_vector.h:803-837 | contents kept and capacity `max(N, size)` in every case, also when the elements move back inline through a temporary; nothing moves when the vector is inline or full |
| `InlinedVectors.InlinedVector.Swap` | distribution/tensorflow/include/absl/container/inlined_vector.h:839-846 | exchanges contents, capacity and blocks in all four storage combinations |
| `InlinedVectors.InlinedVector.SwapInlined` | distribution/tensorflow/include/absl/container/inlined_vector.h:1061-1091 | both inline: common part swapped, the rest constructed there and destroyed here |
| `InlinedVectors.InlinedVector.SwapInlinedWithAllocated` | distribution/tensorflow/include/absl/container/inlined_vector.h:1093-1132 | inline against heap: the pointer survives although inline objects are built over it |
| `InlinedVectors.InlinedVector.SwapTwice` | distribution/tensorflow/include/absl/container/inlined_vector.h:1046-1133 | swapping twice restores contents, capacity and blocks of both |
| `InlinedVectors.InlinedVector.Construct` | distribution/tensorflow/include/absl/container/inlined_vector.h:869-874 | construction in inline space overwrites the heap pointer stored there |
| `InlinedVectors.InlinedVector.UninitializedCopy` | distribution/tensorflow/include/absl/container/inlined_vector.h:876-879 | constructs copies (or moves) of a range in raw cells, within one block or across blocks |
| `InlinedVectors.InlinedVector.UninitializedFill` | distribution/tensorflow/include/absl/container/inlined_vector.h:881-884 | constructs copies of a value in raw cells, the value being read for each of them |
| `Growth.Grown` | distribution/tensorflow/include/absl/container/inlined_vector.h:912-917 | the doubled capacity reaches the target and stays below twice the target |
| `Growth.GrownIsLeast` | distribution/tensorflow/include/absl/container/inlined_vector.h:944-948 | it is the least `capacity * 2^k` that reaches the target |
| `Growth.GrowthIsRightIff` | distribution/tensorflow/include/absl/container/inlined_vector.h:912-917 | for every capacity and target on 64-bit `size_type`: the shift loop ends with the least sufficient doubling if and only if the target is at most `Top(capacity)`, the last doubling of the capacity below 2^64 |
| `Growth.DoubleUntil` | distribution/tensorflow/include/absl/container/inlined_vector.h:912-917 | for those targets the loop computes it, and its variable is the one `GrowthIsRightIff` speaks of |
| `Growth.GrowthCanStopWrong` | distribution/tensorflow/include/absl/container/inlined_vector.h:912-917 | one failing input: from 11, a target of `11 * 2^60 + 1` ends the loop at `3 * 2^62`, no doubling of 11 |
| `Growth.PowersOfTwoNeverStop` | distribution/tensorflow/include/absl/container/inlined_vector.h:912-917 | the failing family of powers of two: the loop variable goes to 2^63 and then to 0 for ever, so no larger target is reached |
| `Uint128s.MulValue` | distribution/tensorflow/include/absl/numeric/int128.h:671-696 | the portable multiplication is `x * y mod 2^128` for all operands |
| `Uint128s.MulParts` | distribution/tensorflow/include/absl/numeric/int128.h:683-694 | the half products do not overflow and the high limb may wrap in any order |
| `Uint128s.AddValue` | distribution/tensorflow/include/absl/numeric/int128.h:653-660 | limbwise addition with its carry test is addition modulo 2^128 |
| `Uint128s.SubValue` | distribution/tensorflow/include/absl/numeric/int128.h:662-669 | limbwise subtraction with its borrow test is subtraction modulo 2^128 |
| `Uint128s.NegValue` | distribution/tensorflow/include/absl/numeric/int128.h:573-578 | two's complement negation with its carry |
| `Uint128s.NegIsNotPlusOne` | distribution/tensorflow/include/absl/numeric/int128.h:573-588 | `~` complements every bit, and `-x` is `~x + 1` |
| `Uint128s.ShlValue` | distribution/tensorflow/include/absl/numeric/int128.h:625-637 | `x << k` is `x * 2^k mod 2^128` for `0 <= k < 128` |
| `Uint128s.ShrValue` | distribution/tensorflow/include/absl/numeric/int128.h:639-651 | `x >> k` is `x / 2^k` for `0 <= k < 128` |
| `Uint128s.ShiftsAddUp` | distribution/tensorflow/include/absl/numeric/int128.h:625-651 | successive shifts add up while the total is below 128 |
| `Uint128s.BitsValue` | distribution/tensorflow/include/absl/numeric/int128.h:590-603 | limbwise `\|`, `&`, `^` are the bitwise operators on the 128-bit number |
| `Uint128s.BitwiseBits` | distribution/tensorflow/include/absl/numeric/int128.h:590-603 | every bit of `\|`, `&`, `^` is the or, the and, the exclusive or of the two bits there |
| `Uint128s.BitsSums` | distribution/tensorflow/include/absl/numeric/int128.h:590-603 | `(x ^ y) + 2 * (x & y) == x + y`, `(x \| y) + (x & y) == x + y`, and `(x ^ y) ^ y == x` |
| `Uint128s.OrderIsNumeric` | distribution/tensorflow/include/absl/numeric/int128.h:547-569 | the four order comparisons are those of the numbers |
| `Uint128s.ValueInjective` | distribution/tensorflow/include/absl/numeric/int128.h:538-541 | different limbs mean different numbers, so `==` is numeric equality |
| `Uint128s.AddCommutes` | distribution/tensorflow/include/absl/numeric/int128.h:653-660 | addition commutes |
| `Uint128s.AddAssociates` | distribution/tensorflow/include/absl/numeric/int128.h:653-660 | addition associates |
| `Uint128s.SubIsInverse` | distribution/tensorflow/include/absl/numeric/int128.h:653-669 | zero is neutral and subtraction undoes addition |
| `Uint128s.NegIsInverse` | distribution/tensorflow/include/absl/numeric/int128.h:573-578 | `x + -x` is 0 and `x - y` is `x + -y` |
| `Uint128s.MulCommutes` | distribution/tensorflow/include/absl/numeric/int128.h:671-696 | multiplication commutes |
| `Uint128s.MulAssociates` | distribution/tensorflow/include/absl/numeric/int128.h:671-696 | multiplication associates |
| `Uint128s.MulDistributes` | distribution/tensorflow/include/absl/numeric/int128.h:653-696 | multiplication distributes over addition |
| `Uint128s.MulByOne` | distribution/tensorflow/include/absl/numeric/int128.h:671-696 | one is neutral |
| `Uint128s.SignedValue` | distribution/tensorflow/include/absl/numeric/int128.h:395-412 | sign extension gives `v mod 2^128` |
| `Uint128s.SignedArithmetic` | distribution/tensorflow/include/absl/numeric/int128.h:395-412 | `+`, `-`, `*` and negation of signed operands are right modulo 2^128, and each is exact when the signed result fits |
| `Uint128s.Variable.AddAssign` | distribution/tensorflow/include/absl/numeric/int128.h:362-365 | `+=` in place |
| `Uint128s.Variable.SubAssign` | distribution/tensorflow/include/absl/numeric/int128.h:367-370 | `-=` in place |
| `Uint128s.Variable.MulAssign` | distribution/tensorflow/include/absl/numeric/int128.h:372-375 | `*=` in place |
| `Uint128s.Variable.ShlAssign` | distribution/tensorflow/include/absl/numeric/int128.h:352-355 | `<<=` in place |
| `Uint128s.Variable.ShrAssign` | distribution/tensorflow/include/absl/numeric/int128.h:357-360 | `>>=` in place |
| `Uint128s.Variable.BitsAssign` | distribution/tensorflow/include/absl/numeric/int128.h:605-621 | `\|=`, `&=`, `^=` limb by limb |
| `Uint128s.Variable.PreIncrement` | distribution/tensorflow/include/absl/numeric/int128.h:712-715 | `++x` modulo 2^128 |
| `Uint128s.Variable.PostIncrement` | distribution/tensorflow/include/absl/numeric/int128.h:700-704 | `x++` returns the old value |
| `Uint128s.Variable.PreDecrement` | distribution/tensorflow/include/absl/numeric/int128.h:717-720 | `--x` modulo 2^128 |
| `Uint128s.Variable.PostDecrement` | distribution/tensorflow/include/absl/numeric/int128.h:706-710 | `x--` returns the old value |
| `CallOnce.Safety` | distribution/tensorflow/include/absl/base/call_once.h:51-58 | in every interleaving of any number of calls the function starts at most once, has finished before any call returns, and the debug check never fails |
| `CallOnce.StepKeepsInv` | distribution/tensorflow/include/absl/base/call_once.h:134-182 | the invariant holds after every step, and the word moves only Init, Running, (Waiter,) Done |
| `CallOnce.RunKeepsInv` | distribution/tensorflow/include/absl/base/call_once.h:160-182 | the invariant holds over every run; the word never moves back and Done is absorbing |
| `CallOnce.StepDecreases` | distribution/tensorflow/include/absl/base/call_once.h:160-181 | every step except a re-poll strictly decreases the measure; a re-poll changes nothing |
| `CallOnce.SomeUsefulStep` | distribution/tensorflow/include/absl/base/call_once.h:165-181 | no deadlock: while a call is unfinished some call has a useful step |
| `CallOnce.FairSchedulesFinish` | distribution/tensorflow/include/absl/base/call_once.h:165-181 | under every fair schedule all `n` calls return within `17n + 3` rounds and the function ran exactly once |
| `CallOnce.WakesIffRegistered` | distribution/tensorflow/include/absl/base/call_once.h:176-180 | the runner wakes the waiters iff one had registered before its load of the word |
| `CallOnce.WaiterCanMissTheWake` | distribution/tensorflow/include/absl/base/call_once.h:176-180 | a waiter that registers between the load and the store gets no wake |
| `CallOnce.FindRow` | distribution/tensorflow/include/absl/base/internal/spinlock_wait.h:29-43 | the row the wait loop picks is the first whose `from` matches the word; no row matches if it finds none |
| `CallOnce.DoneReturnsAtOnce` | distribution/tensorflow/include/absl/base/call_once.h:202-210 | a call that begins when the word is Done returns at its first step and changes nothing else |
| `CallOnce.UndisturbedCall` | distribution/tensorflow/include/absl/base/call_once.h:143-182 | a call that runs undisturbed from Init returns after seven steps, without entering the wait loop and without a wake |
| `CallOnce.DebugCheckFails` | distribution/tensorflow/include/absl/base/call_once.h:147-158 | the debug check fails exactly for a word that is none of the four |
| `HashLaws.Subject.Verify` | distribution/tensorflow/include/absl/hash/hash_testing.h:185-275 | every failure reported is real, and a reported error is that of the first value that failed to expand; success means, for any expansion, that every value expanded without error and alike on two successive calls and that the classes were told apart; for deterministic expansion and an equivalence it succeeds iff there are no errors, two classes, and the law holds for every pair of values |
| `HashLaws.Subject.FailureIsUnlawful` | distribution/tensorflow/include/absl/hash/hash_testing.h:219-271 | each kind of failure refutes the laws |
| `HashLaws.Subject.PassingIsLawful` | distribution/tensorflow/include/absl/hash/hash_testing.h:230-274 | checks on class heads suffice for all pairs |
| `HashLaws.Subject.Gather` | distribution/tensorflow/include/absl/hash/hash_testing.h:202-223 | groups the values by equality with class heads and stops at the first error |
| `HashLaws.Subject.CheckMembers` | distribution/tensorflow/include/absl/hash/hash_testing.h:234-248 | each member must expand alike on two successive calls, and then like the head, piece by piece |
| `HashLaws.Subject.CheckOthers` | distribution/tensorflow/include/absl/hash/hash_testing.h:250-272 | heads of different classes are compared byte by byte |
| `SuffixFree.ContentsThenSize` | distribution/tensorflow/include/absl/container/inlined_vector.h:1223-1229 | contents then size: if the elements of a domain have suffix-free encodings, so have the containers of them, for every size a `size_t` holds |
| `SuffixFree.NestedContainers` | distribution/tensorflow/include/absl/container/inlined_vector.h:1223-1229 | and therefore so have containers of containers |
| `SuffixFree.ContentsOnly` | distribution/tensorflow/include/absl/hash/hash_testing.h:118-132 | without the size, expansions nest exactly when one container ends with the other |
| `SuffixFree.SameCount` | distribution/tensorflow/include/absl/hash/hash_testing.h:118-140 | with equally many elements only equal contents nest |
| `SuffixFree.SizesSuffixFree` | distribution/tensorflow/include/absl/container/fixed_array.h:362-366 | the eight bytes of a `size_t` are a suffix-free encoding of its values |
| `SuffixFree.SizeByte` | distribution/tensorflow/include/absl/hash/internal/hash.h:180-190 | byte `i` of a size is its digit in base 256, lowest first |
| `SuffixFree.NumberOfSizeBytes` | distribution/tensorflow/include/absl/hash/internal/hash.h:180-190 | decoding the bytes of a size that fits gives the size back |
| `SuffixFree.FlatContainer` | distribution/tensorflow/include/absl/hash/internal/hash.h:516-536 | hashing the elements as one contiguous piece or element by element, each in any number of pieces, feeds the same bytes to the hash state |
| `SuffixFree.PieceCount` | distribution/tensorflow/include/absl/hash/internal/hash.h:516-536 | contiguous elements are one piece, others as many as they give together; the size is one more |
| `SuffixFree.ContainersAreLawful` | distribution/tensorflow/include/absl/hash/hash_testing.h:134-140 | containers hashed as contents then size, in either way, satisfy every law the checker checks |
| `StrReplace.FindSubstitutions` | distribution/tensorflow/include/absl/strings/str_replace.h:156-184 | the insertion-sort loop computes the specified list |
| `StrReplace.SinkLast` | distribution/tensorflow/include/absl/strings/str_replace.h:176-181 | the swaps move the new entry past exactly the entries that occur before it |
| `StrReplace.CandidatesOrdered` | distribution/tensorflow/include/absl/strings/str_replace.h:144-149 | no entry occurs before a later one |
| `StrReplace.CandidatesContents` | distribution/tensorflow/include/absl/strings/str_replace.h:162-174 | one entry for each replacement that has a candidate: none lost, doubled or invented |
| `StrReplace.CandidatesAreFirstMatches` | distribution/tensorflow/include/absl/strings/str_replace.h:162-174 | the entries are exactly the replacements whose key is not empty and occurs, with their text, at the first position where the key occurs |
| `StrReplace.LastIsBestMatch` | distribution/tensorflow/include/absl/strings/str_replace.h:176-177 | the last entry is the leftmost match of any key at any position, the longest among ties |
| `StrReplace.SameResultIff` | distribution/tensorflow/include/absl/strings/str_replace.h:162-182 | two lists of replacements give the same result if and only if every key that occurs is given the same texts in the same order |
| `StrReplace.OrderDoesNotMatter` | distribution/tensorflow/include/absl/strings/str_replace.h:162-182 | with distinct keys the result is the same for every order of the replacements |
| `StrReplace.RepeatedKeysKeepTheirOrder` | distribution/tensorflow/include/absl/strings/str_replace.h:144-182 | the sort is stable: for every list of replacements, the entries with a given key keep the order of their replacements |
| `FixedArrays.ConstructRange` | distribution/tensorflow/include/absl/memory/memory.h:653-669 | all cells constructed in order, or, if a constructor throws at any index, exactly the built prefix destroyed in reverse order and every cell raw again; the event log is given entry by entry |
| `FixedArrays.CopyRange` | distribution/tensorflow/include/absl/memory/memory.h:671-688 | the same for copies of a range or moves out of it; after a throw exactly the objects already read through move iterators are moved-from |
| `FixedArrays.RollBack` | distribution/tensorflow/include/absl/memory/memory.h:661-667 | destroys `[first, cur)` from the end |
| `FixedArrays.TornDownReverses` | distribution/tensorflow/include/absl/memory/memory.h:662-665 | the destructions are the constructions in reverse order |
| `FixedArrays.FixedArray.constructor` | distribution/tensorflow/include/absl/container/fixed_array.h:448-449 | storage for `n` elements; a heap block is allocated iff `n` exceeds `inline_elements` |
| `FixedArrays.FixedArray.FreeStorage` | distribution/tensorflow/include/absl/container/fixed_array.h:451-457 | frees the block iff `n` exceeds `inline_elements` |
| `FixedArrays.FixedArray.FromCount` | distribution/tensorflow/include/absl/container/fixed_array.h:144-150 | an array of copies, or no array and no memory kept |
| `FixedArrays.FixedArray.FromRange` | distribution/tensorflow/include/absl/container/fixed_array.h:124-167 | an array of the range (by copy or by move), or no array and no memory kept |
| `FixedArrays.FixedArray.Destroy` | distribution/tensorflow/include/absl/container/fixed_array.h:169-173 | every element destroyed, the block freed iff there is one |
| `FixedArrays.Lifetime` | distribution/tensorflow/include/absl/container/fixed_array.h:438-484 | an array and a copy of it, or one moved out of it: whether or not their construction throws, the allocator ends as it began |
| `Memory.MoveBackward` | distribution/tensorflow/include/absl/container/inlined_vector.h:981-981 | `std::move_backward` inside one block loses no value where the ranges overlap |
| `Memory.MoveForward` | distribution/tensorflow/include/absl/container/inlined_vector.h:744-772 | `std::move` to lower cells of one block loses no value where the ranges overlap |

## Left out

- `push_back` and `insert` of an rvalue that is an element of the vector itself: only copies of own elements are modelled.
- Exceptions thrown by element operations inside `InlinedVector`, unequal allocators, and the `memcpy` path for trivial types.
- Allocation failure: `Allocate` always succeeds.
- `at`, `front`, `back`, iterators as objects, and the comparison operators of the containers: one-line forwards.
- Address-sanitizer annotations and the debug fill of freed memory.
- `FixedArray(n)` of trivially default-constructible elements, which leaves them uninitialized, and arrays of arrays.
- `uint128` division, modulo, streaming, floating-point conversions, and the `__int128` and MSVC branches of the multiplication.
- Narrowing conversions from `uint128` to smaller integers, which take the low limb.
- `call_once` with a function that throws, the scheduling guard, and memory orderings weaker than sequential consistency.
- The delay inside `SpinLockWait`: a poll of a word without a row simply leaves the state as it is.
- Detection of direct `AbslHashValue` calls and of moved-from hash states: the checker sees them only as an error attached to an expansion.
- `ApplySubstitutions` and the final string of `StrReplaceAll`: their bodies are not part of this model.
- `std::string_view::find`, `std::fill`, `std::copy`, `std::move` and `std::swap_ranges` are given by their standard meaning.
- The JNI sources, nsync, mutexes, hash tables, formatting and parsing headers: declarations or forwards without an algorithm of their own.
