# Verified model of five Rust course exercises

This project models, in Dafny, the solved exercises at the heart of a Rust
teaching course, and proves what each of them promises:

- **`LocalStorageVec<T, N>`** (`local_storage_vec.dfy`, module `LocalStorage`)
  is a list that keeps up to `N` elements in a fixed `[T; N]` buffer (`Stack`)
  and moves to a `Vec<T>` (`Heap`) when it has to grow past the buffer. It is a
  class with the buffer as an `array`. The methods `Push`, `Pop`, `Insert`,
  `Remove` and `Clear` update it in place. `Get`, the three range indexings and
  `Chunks` read it. Every operation is specified against `Elements()`, the live
  contents, and against the raw buffer where the source writes into it.
- **The boxed-data evaluator** (`boxed_data.dfy`, module `BoxedData`; `int64.dfy`,
  module `Int64`) covers the expression tree `Expr` over `i64` and `eval`, which
  uses checked arithmetic. `Value` is a reference meaning written as plain
  recursion. `Eval` follows the source, including the accumulating loop of
  `Summation` and the counting loop of `Sigma`, and is proved to compute
  `Value`. Lemmas then say what each form means, with Gauss's formula for
  `Sigma` and the exact overflow conditions: `OperatorMeaning` (the leaves and
  the four operators), `SummationMeaning` and `SigmaMeaning` together state
  `Value` form by form, and their rows below stand for it.
- **The BSN newtype** (`bsn.dfy`, module `BsnNumber`) covers the check of a
  Dutch citizen service number, the constructors that apply it, and
  serialisation with its round trip.
- **FizzBuzz** (`fizzbuzz.dfy`, module `FizzBuzzGame`) covers `fizz_buzz`, the
  decimal spelling it falls back on, `str::trim`, and the unit test's loop.
- **The 3D-printer typestate** (`print3d.dfy`, module `Print3D`) covers the
  printer states, the operations each state offers, and the `main` driver that
  runs one hundred print jobs.

Shared option and result types live in `wrappers.dfy` (module `Wrappers`).
A panic is modelled as the outcome `Panicked`.

## Model

| member | source | states |
|---|---|---|
| Int64.CheckedAdd | content/mods/A-foundations/topics/smart-pointers/exercises/boxed-data/src/main.rs:54 | `checked_add` succeeds exactly when the exact sum is an `i64`, and then returns it |
| Int64.CheckedSub | content/mods/A-foundations/topics/smart-pointers/exercises/boxed-data/src/main.rs:55 | `checked_sub` succeeds exactly when the exact difference is an `i64`, and then returns it |
| Int64.CheckedMul | content/mods/A-foundations/topics/smart-pointers/exercises/boxed-data/src/main.rs:56 | `checked_mul` succeeds exactly when the exact product is an `i64`, and then returns it |
| Int64.CheckedDiv | content/mods/A-foundations/topics/smart-pointers/exercises/boxed-data/src/main.rs:57 | a successful `checked_div` had a non-zero divisor and returns the quotient rounded toward zero |
| Int64.CheckedDivFails | content/mods/A-foundations/topics/smart-pointers/exercises/boxed-data/src/main.rs:57 | `checked_div` fails exactly on a zero divisor and on `i64::MIN / -1` |
| Int64.TruncDiv | content/mods/A-foundations/topics/smart-pointers/exercises/boxed-data/src/main.rs:57 | Rust's `/` on `i64`: the quotient is 0 exactly when the dividend is smaller in magnitude than the divisor, and otherwise positive exactly when the operands have the same sign |
| Int64.TruncDivIsTruncating | content/mods/A-foundations/topics/smart-pointers/exercises/boxed-data/src/main.rs:57 | Rust's signed division leaves a remainder with the dividend's sign, smaller in magnitude than the divisor |
| Int64.TruncDivMagnitude | content/mods/A-foundations/topics/smart-pointers/exercises/boxed-data/src/main.rs:57 | the quotient is no larger in magnitude than the dividend, and at most half of it unless the divisor is 1 or -1 |
| BoxedData.Eval | content/mods/A-foundations/topics/smart-pointers/exercises/boxed-data/src/main.rs:50-77 | the evaluator, with its `Summation` and `Sigma` loops, returns exactly the reference value `Value(e, x)` |
| BoxedData.EvalSummation | content/mods/A-foundations/topics/smart-pointers/exercises/boxed-data/src/main.rs:58-64 | the accumulating loop of `Summation` returns exactly the reference value of the `Summation` |
| BoxedData.EvalSigma | content/mods/A-foundations/topics/smart-pointers/exercises/boxed-data/src/main.rs:65-75 | the counting loop of `Sigma`, followed by the evaluation of the collected `Summation`, returns exactly the reference value of the `Sigma` |
| BoxedData.SigmaIsSummation | content/mods/A-foundations/topics/smart-pointers/exercises/boxed-data/src/main.rs:65-75 | with both endpoints defined and `to < i64::MAX`, `Sigma(from, to)` has the value of the `Summation` of the constants `from, ..., to` |
| BoxedData.OperatorMeaning | content/mods/A-foundations/topics/smart-pointers/exercises/boxed-data/src/main.rs:52-57 | constants and `Var` evaluate to themselves; each binary form is `None` when an operand is `None` or the exact result overflows; division also fails on 0 and truncates |
| BoxedData.SumFromMeaning | content/mods/A-foundations/topics/smart-pointers/exercises/boxed-data/src/main.rs:59-63 | the checked accumulation succeeds exactly when every child has a value and every running total fits in `i64`, and then it yields the exact total |
| BoxedData.SummationMeaning | content/mods/A-foundations/topics/smart-pointers/exercises/boxed-data/src/main.rs:58-64 | the empty `Summation` is 0; otherwise it is `Some` exactly when all children are defined and no running total overflows, and then it is their exact sum |
| BoxedData.SigmaMeaning | content/mods/A-foundations/topics/smart-pointers/exercises/boxed-data/src/main.rs:65-75 | `Sigma(from, to)` is `None` when an endpoint is; it is 0 when `to < from`; otherwise it is `Some` exactly when `to < i64::MAX` and every running total fits, and then it equals the sum of `from..=to`, which is `(from + to)(to - from + 1) / 2` |
| BoxedData.GaussFormula | content/mods/A-foundations/topics/smart-pointers/exercises/boxed-data/src/main.rs:65-75 | the closed form for the sum of a range of integers equals the term-by-term sum |
| BoxedData.SigmaFitsMeaning | content/mods/A-foundations/topics/smart-pointers/exercises/boxed-data/src/main.rs:68-74 | the closed-form overflow test (lowest and last running total) is equivalent to every running total of `from..=to` fitting in `i64` |
| BoxedData.SumConstRange | content/mods/A-foundations/topics/smart-pointers/exercises/boxed-data/src/main.rs:68-74 | summing the constants `from, from + 1, …` that the loop pushes succeeds exactly when all running totals fit, and gives the range sum |
| BoxedData.ExpectedOperatorValues | content/mods/A-foundations/topics/smart-pointers/exercises/boxed-data/src/main.rs:108-116 | the unit test's expected values with `Var = 42`: 5, 42, 37, 0, 42, 420, `None` on division by 0, and 2 |
| BoxedData.ExpectedSummationValue | content/mods/A-foundations/topics/smart-pointers/exercises/boxed-data/src/main.rs:117 | `Summation([Var, 1])` is 43 with `Var = 42` |
| BoxedData.ExpectedSigmaValue | content/mods/A-foundations/topics/smart-pointers/exercises/boxed-data/src/main.rs:118-121 | `Sigma(1, 5)` is 15 |
| LocalStorage.InsertRemoveInverse | content/mods/A-foundations/topics/traits-generics/exercises/local-storage-vec/src/lib.rs:136-189 | `remove(i)` undoes `insert(i, v)`, and re-inserting a removed element restores the list |
| LocalStorage.ChunksOfMeaning | content/mods/A-foundations/topics/traits-generics/exercises/local-storage-vec/src/lib.rs:205-210 | chunks concatenate back to the list, each holds 1 to `size` elements, and all but the last hold exactly `size` |
| LocalStorage.LocalStorageVec.Len | content/mods/A-foundations/topics/traits-generics/exercises/local-storage-vec/src/lib.rs:90-95 | `len()` on a `Stack` never exceeds the capacity `N` |
| LocalStorage.LocalStorageVec.Elements | content/mods/A-foundations/topics/traits-generics/exercises/local-storage-vec/src/lib.rs:66-71 | the contents (`as_ref`, `deref`, `iter`) have `len()` elements, and on `Stack` they are the live prefix of `buf` |
| LocalStorage.LocalStorageVec.New | content/mods/A-foundations/topics/traits-generics/exercises/local-storage-vec/src/lib.rs:80-88 | `new()` is an empty `Stack` whose `N` slots hold the default value |
| LocalStorage.LocalStorageVec.FromArray | content/mods/A-foundations/topics/traits-generics/exercises/local-storage-vec/src/lib.rs:29-52 | an array of at most `N` elements goes to `Stack`, in order, padded with defaults; a longer one becomes `Heap`; the contents are the array either way |
| LocalStorage.LocalStorageVec.FromVec | content/mods/A-foundations/topics/traits-generics/exercises/local-storage-vec/src/lib.rs:59-61 | a `Vec` always becomes `Heap` with the same contents |
| LocalStorage.LocalStorageVec.Get | content/mods/A-foundations/topics/traits-generics/exercises/local-storage-vec/src/lib.rs:239-250 | `vec[i]` panics exactly when `i >= len()`, and otherwise is the `i`-th element |
| LocalStorage.LocalStorageVec.Slice | content/mods/A-foundations/topics/traits-generics/exercises/local-storage-vec/src/lib.rs:256-267 | `vec[a..b]` as written: it succeeds exactly when `a <= b <= len()` and, on `Stack`, also `b < len()`; then it is that slice of the contents |
| LocalStorage.LocalStorageVec.SliceTo | content/mods/A-foundations/topics/traits-generics/exercises/local-storage-vec/src/lib.rs:273-284 | `vec[..b]` as written: it succeeds exactly when `b <= len()` and, on `Stack`, also `b < len()`; then it is that prefix |
| LocalStorage.LocalStorageVec.SliceFrom | content/mods/A-foundations/topics/traits-generics/exercises/local-storage-vec/src/lib.rs:290-301 | `vec[a..]` as written: it succeeds exactly when `a <= len()` and, on `Stack`, also `a < len()`; then it is that suffix |
| LocalStorage.LocalStorageVec.SliceChecked | content/mods/A-foundations/topics/traits-generics/exercises/local-storage-vec/src/lib.rs:256-267 | `vec[a..b]` with slice bounds: it succeeds exactly when `a <= b <= len()` on both variants |
| LocalStorage.LocalStorageVec.SliceToChecked | content/mods/A-foundations/topics/traits-generics/exercises/local-storage-vec/src/lib.rs:273-284 | `vec[..b]` with slice bounds: it succeeds exactly when `b <= len()` |
| LocalStorage.LocalStorageVec.SliceFromChecked | content/mods/A-foundations/topics/traits-generics/exercises/local-storage-vec/src/lib.rs:290-301 | `vec[a..]` with slice bounds: it succeeds exactly when `a <= len()` |
| LocalStorage.LocalStorageVec.Chunks | content/mods/A-foundations/topics/traits-generics/exercises/local-storage-vec/src/lib.rs:205-210 | `chunks(0)` panics; otherwise the chunks are non-empty, at most `size` long, all but the last exactly `size` long, and concatenate to the contents |
| LocalStorage.LocalStorageVec.Push | content/mods/A-foundations/topics/traits-generics/exercises/local-storage-vec/src/lib.rs:97-117 | the value is appended; a full `Stack` moves to `Heap`; a `Stack` with room writes `buf[len]` and leaves the other slots alone |
| LocalStorage.LocalStorageVec.Pop | content/mods/A-foundations/topics/traits-generics/exercises/local-storage-vec/src/lib.rs:119-134 | `None` exactly on an empty list; otherwise the last element, which is removed; the variant is kept |
| LocalStorage.LocalStorageVec.Insert | content/mods/A-foundations/topics/traits-generics/exercises/local-storage-vec/src/lib.rs:136-167 | `insert` as written: the new contents and buffer in every branch, the panic cases (`Stack` with room and `index == 0`, `Heap` with `index > len`), the dropped value at `index >= N` on a full `Stack`, and the ignored `index > len` on a `Stack` with room; a panic on `Heap` leaves the vector as it was |
| LocalStorage.LocalStorageVec.InsertChecked | content/mods/A-foundations/topics/traits-generics/exercises/local-storage-vec/src/lib.rs:136-167 | the corrected `insert`: the value lands before `index` whenever `index <= len()`; it panics only on `Heap` past the end |
| LocalStorage.LocalStorageVec.Remove | content/mods/A-foundations/topics/traits-generics/exercises/local-storage-vec/src/lib.rs:169-189 | it panics exactly when `index >= len()`; otherwise it returns the element at `index` and the contents lose exactly that position; on `Stack` the slots above move down one |
| LocalStorage.LocalStorageVec.Clear | content/mods/A-foundations/topics/traits-generics/exercises/local-storage-vec/src/lib.rs:191-196 | the list becomes empty and keeps its variant |
| LocalStorage.CopyAll | content/mods/A-foundations/topics/traits-generics/exercises/local-storage-vec/src/lib.rs:104-107 | the cloning loop of `push` copies the buffer, in order |
| LocalStorage.CopyInserting | content/mods/A-foundations/topics/traits-generics/exercises/local-storage-vec/src/lib.rs:143-149 | the cloning loop of `insert` copies the buffer with the value before slot `index`, and only when `index < N` |
| LocalStorage.ShiftRight | content/mods/A-foundations/topics/traits-generics/exercises/local-storage-vec/src/lib.rs:158-160 | the shifting loop of `insert` moves `buf[index - 1..len]` up one slot, and it panics exactly when `index == 0` |
| LocalStorage.ShiftUp | content/mods/A-foundations/topics/traits-generics/exercises/local-storage-vec/src/lib.rs:158-160 | the corrected shifting loop moves `buf[index..len]` up one slot and never underflows |
| LocalStorage.InsertIntoBuffer | content/mods/A-foundations/topics/traits-generics/exercises/local-storage-vec/src/lib.rs:158-163 | `insert` on a `Stack` with room, as written: panics exactly when `index == 0`, otherwise the live prefix becomes the old one with the value before `index` |
| LocalStorage.InsertIntoBufferChecked | content/mods/A-foundations/topics/traits-generics/exercises/local-storage-vec/src/lib.rs:158-163 | the corrected shift-and-store: the live prefix becomes the old one with the value before `index`, for every `index <= len` |
| LocalStorage.ShiftLeft | content/mods/A-foundations/topics/traits-generics/exercises/local-storage-vec/src/lib.rs:180-182 | the shifting loop of `remove` moves `buf[index + 1..len]` down one slot and leaves the last live slot as it was |
| LocalStorage.StackRejectsEndPoint | content/mods/A-foundations/topics/traits-generics/exercises/local-storage-vec/src/lib.rs:256-301 | on `Stack`, `vec[0..len]`, `vec[..len]` and `vec[len..]` panic as written, while slice bounds accept them |
| LocalStorage.SliceAgreesBelowEnd | content/mods/A-foundations/topics/traits-generics/exercises/local-storage-vec/src/lib.rs:256-301 | below the end point, the as-written and corrected range indexings agree on both variants |
| LocalStorage.InsertAtFrontExample | content/mods/A-foundations/topics/traits-generics/exercises/local-storage-vec/src/lib.rs:154-163 | `insert(0, 9)` on `[0, 1, 2]` with `N = 4` panics as written; corrected it gives `[9, 0, 1, 2]` |
| LocalStorage.InsertAtCapacityExample | content/mods/A-foundations/topics/traits-generics/exercises/local-storage-vec/src/lib.rs:142-151 | `insert(4, 9)` on a full `[0, 1, 2, 3]` with `N = 4` loses the 9 as written; corrected it gives `[0, 1, 2, 3, 9]` |
| LocalStorage.ConstructionExamples | content/mods/A-foundations/topics/traits-generics/exercises/local-storage-vec/src/lib.rs:356-401 | `new()` is an empty `Stack`; both `len()` checks give 3; a `Vec` becomes `Heap`; `as_ref` of 128 zeros has 128 elements |
| LocalStorage.ClearExamples | content/mods/A-foundations/topics/traits-generics/exercises/local-storage-vec/src/lib.rs:487-497 | clearing a `Stack` and a `Heap` leaves both empty and in their variant |
| LocalStorage.InsertExamples | content/mods/A-foundations/topics/traits-generics/exercises/local-storage-vec/src/lib.rs:441-461 | the `it_inserts` outcomes: `buf == [0, 3, 1, 2]` with `len == 4`, then `[0, 3, 1, 2, 3]` and `[0, 3, 1, 2, 3, 4]` on the heap |
| LocalStorage.RemoveExamples | content/mods/A-foundations/topics/traits-generics/exercises/local-storage-vec/src/lib.rs:465-483 | the `it_removes` outcomes: `buf` starting `[0, 2]` with `len == 2`, and heap contents `[0, 2]`, each returning 1 |
| LocalStorage.PushExamples | content/mods/A-foundations/topics/traits-generics/exercises/local-storage-vec/src/lib.rs:405-415 | 128 pushes stay on `Stack` with `len == 128`; 128 more reach `Heap` with 256 elements |
| LocalStorage.PopExamples | content/mods/A-foundations/topics/traits-generics/exercises/local-storage-vec/src/lib.rs:419-424 | popping 128 zeros yields `Some(0)` 128 times, then `None` |
| LocalStorage.IndexExamples | content/mods/A-foundations/topics/traits-generics/exercises/local-storage-vec/src/lib.rs:519-525 | `vec[1] == 1`, `vec[..2] == [0, 1]`, `vec[4..] == [4, 5]`, `vec[1..3] == [1, 2]` |
| BsnNumber.Utf8Len | content/mods/B-crate-engineering/topics/design-patterns/exercises/bsn/src/lib.rs:58 | `str::len` counts one to four bytes per character |
| BsnNumber.Utf8LenBounds | content/mods/B-crate-engineering/topics/design-patterns/exercises/bsn/src/lib.rs:58-59 | the byte length equals the character count exactly when every character is ASCII |
| BsnNumber.DigitValue | content/mods/B-crate-engineering/topics/design-patterns/exercises/bsn/src/lib.rs:62 | `to_digit(10)` of an ASCII digit is between 0 and 9 |
| BsnNumber.Digits | content/mods/B-crate-engineering/topics/design-patterns/exercises/bsn/src/lib.rs:60-62 | the digit values are as many as the characters, each between 0 and 9 |
| BsnNumber.WeightedSumOfNine | content/mods/B-crate-engineering/topics/design-patterns/exercises/bsn/src/lib.rs:57-65 | the zipped weighted sum of nine digits is `9d0 + 8d1 + … + 2d7 - d8` |
| BsnNumber.CheckBsnStr | content/mods/B-crate-engineering/topics/design-patterns/exercises/bsn/src/lib.rs:56-68 | a string that passes the check is nine ASCII digits; `CheckBsnStrMeaning` states the whole condition |
| BsnNumber.CheckBsnStrMeaning | content/mods/B-crate-engineering/topics/design-patterns/exercises/bsn/src/lib.rs:56-68 | a string passes exactly when it is nine ASCII digits whose weighted sum is a multiple of 11 |
| BsnNumber.TryFromString | content/mods/B-crate-engineering/topics/design-patterns/exercises/bsn/src/lib.rs:36-44 | `Ok` exactly when the check passes, wrapping the same string; otherwise `InvalidBsn` |
| BsnNumber.Validate | content/mods/B-crate-engineering/topics/design-patterns/exercises/bsn/src/lib.rs:48-54 | `Ok` exactly when the check passes, otherwise `InvalidBsn` |
| BsnNumber.Serialize | content/mods/B-crate-engineering/topics/design-patterns/exercises/bsn/src/lib.rs:72-77 | serialising a valid `Bsn` produces a string that passes the check |
| BsnNumber.VisitStr | content/mods/B-crate-engineering/topics/design-patterns/exercises/bsn/src/lib.rs:97-108 | deserialising succeeds exactly when the check passes, wrapping the same string |
| BsnNumber.VisitStrIsTryFromString | content/mods/B-crate-engineering/topics/design-patterns/exercises/bsn/src/lib.rs:97-108 | deserialising and `try_from_string` accept the same strings and build the same value |
| BsnNumber.SerializeRoundTrip | content/mods/B-crate-engineering/topics/design-patterns/exercises/bsn/src/lib.rs:71-112 | deserialising what a valid `Bsn` serialises to gives back that `Bsn` |
| BsnNumber.AcceptedExample | content/mods/B-crate-engineering/topics/design-patterns/exercises/bsn/src/lib.rs:140 | "999998456" passes the check |
| BsnNumber.SerdeExamples | content/mods/B-crate-engineering/topics/design-patterns/exercises/bsn/src/lib.rs:139-146 | "999998456" round-trips, and deserialising it matches `try_from_string`; "1112223333" is refused |
| BsnNumber.RejectedExamples | content/mods/B-crate-engineering/topics/design-patterns/exercises/bsn/src/lib.rs:48-68 | a bad checksum ("999998457") and a non-digit ("12345678a") fail validation |
| FizzBuzzGame.DigitChar | content/mods/B-crate-engineering/topics/testing/exercises/fizzbuzz/src/lib.rs:7 | a value from 0 to 9 becomes the digit character that denotes it |
| FizzBuzzGame.DecimalString | content/mods/B-crate-engineering/topics/testing/exercises/fizzbuzz/src/lib.rs:7 | `to_string` of a number is a non-empty string of decimal digits |
| FizzBuzzGame.DecimalRoundTrip | content/mods/B-crate-engineering/topics/testing/exercises/fizzbuzz/src/lib.rs:7 | `to_string` has a leading 0 only for 0 and reads back as the number |
| FizzBuzzGame.FizzBuzz | content/mods/B-crate-engineering/topics/testing/exercises/fizzbuzz/src/lib.rs:2-9 | `fizz_buzz` never returns an empty string, and returns digits exactly when `i` is a multiple of neither 3 nor 5 |
| FizzBuzzGame.FizzBuzzCases | content/mods/B-crate-engineering/topics/testing/exercises/fizzbuzz/src/lib.rs:2-9 | "FizzBuzz", "Fizz", "Buzz" and the decimal number each appear exactly under their divisibility condition by 3 and 5; the number has no leading zero and reads back as `i`, so it is `i.to_string()` |
| FizzBuzzGame.FirstAnswers | content/mods/B-crate-engineering/topics/testing/exercises/fizzbuzz/src/lib.rs:2-9 | sample answers for 1, 2, 3, 5, 14 and 15 |
| FizzBuzzGame.TrimMeaning | content/mods/B-crate-engineering/topics/testing/exercises/fizzbuzz/src/lib.rs:25 | `trim()` returns a contiguous piece of the line that neither starts nor ends with whitespace, and cuts off only whitespace |
| FizzBuzzGame.Trim | content/mods/B-crate-engineering/topics/testing/exercises/fizzbuzz/src/lib.rs:25 | `trim()` is no longer than the line and neither starts nor ends with whitespace |
| FizzBuzzGame.TrimStartMeaning | content/mods/B-crate-engineering/topics/testing/exercises/fizzbuzz/src/lib.rs:25 | `trim_start` cuts a prefix of whitespace and leaves a string that does not start with whitespace |
| FizzBuzzGame.TrimEndMeaning | content/mods/B-crate-engineering/topics/testing/exercises/fizzbuzz/src/lib.rs:25 | `trim_end` cuts a suffix of whitespace and leaves a string that does not end with whitespace |
| FizzBuzzGame.TestFizzBuzz | content/mods/B-crate-engineering/topics/testing/exercises/fizzbuzz/src/lib.rs:21-28 | the test passes exactly when every trimmed line `k` equals `fizz_buzz(k + 1)` and the `u32` counter never has to pass `u32::MAX` |
| Print3D.IntoState | content/mods/B-crate-engineering/topics/design-patterns/exercises/3d-printer/src/lib.rs:10-14 | the printer is moved into the requested state |
| Print3D.OutOfFilament | content/mods/B-crate-engineering/topics/design-patterns/exercises/3d-printer/src/lib.rs:29-32 | `out_of_filament` reports an empty spool exactly on the draws 96, 97, 98 and 99 |
| Print3D.OutOfFilamentOdds | content/mods/B-crate-engineering/topics/design-patterns/exercises/3d-printer/src/lib.rs:29-32 | exactly the draws 96, 97, 98 and 99, four of the hundred, report an empty spool |
| Print3D.New | content/mods/B-crate-engineering/topics/design-patterns/exercises/3d-printer/src/lib.rs:35-40 | a new printer is idle |
| Print3D.Default | content/mods/B-crate-engineering/topics/design-patterns/exercises/3d-printer/src/lib.rs:48-52 | the default printer is idle |
| Print3D.StartPrint | content/mods/B-crate-engineering/topics/design-patterns/exercises/3d-printer/src/lib.rs:42-45 | offered only when idle; the printer is then printing |
| Print3D.CheckFilament | content/mods/B-crate-engineering/topics/design-patterns/exercises/3d-printer/src/lib.rs:55-62 | offered only while printing; `Err` in the error state exactly when the draw exceeds 95, otherwise `Ok` and still printing |
| Print3D.FinishPrint | content/mods/B-crate-engineering/topics/design-patterns/exercises/3d-printer/src/lib.rs:64-67 | offered only while printing; the product is then ready |
| Print3D.Reset | content/mods/B-crate-engineering/topics/design-patterns/exercises/3d-printer/src/lib.rs:71-74 | offered only in the error state; the printer is then idle |
| Print3D.RetrieveProduct | content/mods/B-crate-engineering/topics/design-patterns/exercises/3d-printer/src/lib.rs:78-81 | offered only when the product is ready; the printer is then idle |
| Print3D.NextMatchesOperations | content/mods/B-crate-engineering/topics/design-patterns/exercises/3d-printer/src/lib.rs:34-81 | the transition table offers each operation in exactly the state its `impl` block names, and leads where the operation does |
| Print3D.JobFollowsTypestate | content/mods/B-crate-engineering/topics/design-patterns/exercises/3d-printer/src/main.rs:8-15 | one loop iteration goes from idle back to idle: start, then reset after a failed check or finish and retrieve after a good one |
| Print3D.SessionFollowsTypestate | content/mods/B-crate-engineering/topics/design-patterns/exercises/3d-printer/src/main.rs:7-18 | a run of jobs only ever calls an operation its state offers and ends idle; it starts one print per draw, resets once per failed draw, and finishes and retrieves once per good draw |
| Print3D.RunJobs | content/mods/B-crate-engineering/topics/design-patterns/exercises/3d-printer/src/main.rs:3-19 | `main` runs exactly 100 jobs, ends with an idle printer, and prints "Create Printer3D" followed by each job's lines in order |

## Left out

- Console output: the operations print their lines with `println!`. Only the
  3D-printer driver records them, as the log `RunJobs` returns. The boxed-data
  demo `main` (random `Var`, printing) is not modelled.
- Randomness: the draw `out_of_filament` makes with `gen_range(0..100)` is a
  parameter below 100, one per job, supplied to `RunJobs`; the draws 96 to 99,
  four of the hundred, fail.
- Print3D: the typestate lives in Rust's type system. Here each operation
  instead has a precondition on a state field, so a call the compiler would
  refuse is a call whose precondition fails.
- BsnNumber: the invariant that every `Bsn` passed the check is stated on the
  two constructors (`TryFromString`, `VisitStr`), not as a subset type.
- BsnNumber: the `serde` and `serde_json` machinery around `serialize` and
  `visit_str` is not part of this model. Only the string each of them sees or
  produces is modelled. `Display` for `Error` and the `test_validation` data
  files are not part of this model either.
- BsnNumber.CheckBsnStrMeaning: the weighted sum is computed on unbounded
  integers. The source's `i64` sum of at most nine one-digit products cannot
  overflow.
- FizzBuzzGame.FizzBuzz: `Box::leak` of the decimal string (a deliberate
  leak) is modelled as returning the string.
- FizzBuzzGame.TestFizzBuzz: the content of `fizzbuzz.out` is a parameter.
  `str::lines` is not modelled; the lines come already split.
- LocalStorage: `usize` overflow of `len` is not modelled; lengths are
  unbounded naturals. How `Vec` grows its capacity is not modelled.
- LocalStorage: `chunks_mut`, `as_mut`, `iter`, `into_iter`, `deref` and
  `deref_mut` expose the same elements as `Elements()` (or `Chunks`), and
  mutable borrows are not modelled.
- LocalStorage: the `T: Clone`, `T: Copy` and `T: Default` bounds become a
  `default` parameter; a clone is the same value.
- LocalStorage.LocalStorageVec: the enum that `push` and `insert` overwrite in
  place is one object with the fields of both variants. A `Stack` that moves to
  `Heap` keeps its (now dead) buffer.
- LocalStorage.PopExamples: only the first of the three `it_pops` cases is
  replayed.
- BoxedData: the helper constructors `add`, `sub`, `mul` and `div` are the
  datatype constructors themselves. The `Box` indirection is not modelled.
- BoxedData.Eval: running out of memory while `Sigma` builds its vector of
  constants is not modelled.
- The tagged union, quizzer and config-reader exercises are not part of this
  model.

## Findings

| source | as written | input that shows it | evidently intended | confidence | as-written member | corrected member |
|---|---|---|---|---|---|---|
| content/mods/A-foundations/topics/traits-generics/exercises/local-storage-vec/src/lib.rs:259 | on `Stack`, `vec[a..b]` panics when `b >= len` | `[0, 1, 2]` in a buffer of 4: `vec[0..3]` panics (a `Heap` vector accepts it) | `b <= len`, as for slices | high, not executed | LocalStorage.LocalStorageVec.Slice, LocalStorage.StackRejectsEndPoint | LocalStorage.LocalStorageVec.SliceChecked |
| content/mods/A-foundations/topics/traits-generics/exercises/local-storage-vec/src/lib.rs:276 | on `Stack`, `vec[..b]` panics when `b >= len` | `[0, 1, 2]` in a buffer of 4: `vec[..3]` panics | `b <= len` | high, not executed | LocalStorage.LocalStorageVec.SliceTo, LocalStorage.StackRejectsEndPoint | LocalStorage.LocalStorageVec.SliceToChecked |
| content/mods/A-foundations/topics/traits-generics/exercises/local-storage-vec/src/lib.rs:293 | on `Stack`, `vec[a..]` panics when `a >= len` | `[0, 1, 2]` in a buffer of 4: `vec[3..]` panics instead of giving `[]` | `a <= len` | high, not executed | LocalStorage.LocalStorageVec.SliceFrom, LocalStorage.StackRejectsEndPoint | LocalStorage.LocalStorageVec.SliceFromChecked |
| content/mods/A-foundations/topics/traits-generics/exercises/local-storage-vec/src/lib.rs:158-159 | the shifting loop of `insert` runs down to `i == index` and reads `buf[i - 1]` | `[0, 1, 2]` in a buffer of 4: `insert(0, 9)` computes `0 - 1` on `usize` and panics | insertion at the front gives `[9, 0, 1, 2]` | high, not executed | LocalStorage.LocalStorageVec.Insert, LocalStorage.InsertAtFrontExample | LocalStorage.LocalStorageVec.InsertChecked |
| content/mods/A-foundations/topics/traits-generics/exercises/local-storage-vec/src/lib.rs:144-149 | on a full `Stack` the value is pushed only when the copy loop meets slot `index` | `[0, 1, 2, 3]` in a buffer of 4: `insert(4, 9)` moves to the heap as `[0, 1, 2, 3]`, without the 9 | append, as `Vec::insert(len, v)` does | medium, not executed | LocalStorage.LocalStorageVec.Insert, LocalStorage.InsertAtCapacityExample | LocalStorage.LocalStorageVec.InsertChecked |
