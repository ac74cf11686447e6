# Verified models of the posit toolkit

This project models three parts of the repository in Dafny and proves what they are for.

**The posit kernels of SoftPosit.** `Posit.dfy` states the format and the rounding rule of sections 3 and
4 of the Standard for Posit Arithmetic (2022) once, for every precision and exponent size, over exact
reals. `PositOrder`, `PositValue` and `PositRounding` prove what every kernel needs: encodings are ordered
as their values, the rounding rule has exactly one result, and cutting a long encoding with a guard and a
sticky bit gives that result, wherever the cut falls. On top of that the loops of the C kernels are proved
statement for statement: multiplication (`P32Mul`), division (`P32Div`), the 512-bit quire (`Quire32`),
double to posit and back (`DoubleToP32`, `P32ToDouble`), 64-bit integers (`Int64ToP32`, `P32ToInt`), the
16-bit format (`P16Widening`, `P16Narrowing`) and comparison (`P32Order`).

**The lazy tracker of Hardposit.** `Accelerator` is the hardware as an asynchronous partner with eight
entries, `OperandRing` the ring and the addresses that host and hardware share, `AliasLists` the lists of
handles that wait for one result, and `Hardposits` the host objects. `LazyPrograms` proves that every
program over named posits reads what eager evaluation gives, in the REUSE, NOREUSE and BASELINE builds and
under every interleaving: the hardware may move on before every access to what the two sides share, also
between clearing the flags of a slot and the request. What the two sides keep is stated about the number of
an instruction in program order, which neither side stores. `LazyExpressions` says what such programs compute
without running them: commands compiled from an expression give the value of the expression.

**Kernels of the benchmarks.** The 46-bit random number generator with jump-ahead (`Lcg`, `Randdp`,
`JumpAheads`, `InitialConditions`), the candidate search of MG (`TopTen`, `Zran3`, `SeededGrid`), the sparse
assembly of CG (`SparseRows`, `SparseMerge`, `SparseAssembly`) and the Stockham transform of FT (`Fft`,
`Stockham`, `Cfftz`, `CfftzDft`). In CG and FT the elements are encodings (`Elements`) and the arithmetic on
them is a parameter, so the results hold operation for operation for posits; MG compares posits, which is
comparing encodings as signed integers, and `Zran3` says in values what it finds. Each processor's part of a
grid is stated by its place in the whole grid, so the parts join.

Four places where the code does not do what it is for are results of this project.

- With a 30-bit regime `p32_mul` (line 200) and `q32_to_p32` (line 158) overwrite a sticky bit.
  `P32Mul.Mul` and `Quire32.FromQuire` state exactly when that changes the result: a product of magnitude
  2^119, and a quire of magnitude strictly between 2^118 and 2^118 (1 + 2^-63). Everything else is
  correctly rounded. `P32Order.MulLosesSticky` and `Quire32.QuireLosesSticky` are inputs.
- If the alias list of an entry is empty, `compute` does not wait for the entry's previous result
  (sw/Hardposit/src/hardposit.cpp:128, 323). When that result is written after line 344, the host takes it
  for the new one: `Accelerator.StaleRead`, with a run in `Accelerator.StaleRun`. `LazyPrograms.Run` says
  exactly which programs are exposed to this, in each build.
- Unary minus (sw/Hardposit/src/hardposit.cpp:391) flips one bit; `P32Order.MinusNegates` says that this
  negates 1 and -1 and nothing else, and that zero becomes NaR. `P32Order.MinusMirrors` gives its value
  for every other posit.
- The inverse transform applies it to the root table itself (sw/NPBhardposit/FT/ft.cpp:798). The first
  factor of every level has imaginary part sin(0), so the first inverse transform after the initialisation
  gives NaR everywhere but in the first output (`CfftzDft.InitAndInverse`). The flips stay in the table: with
  transforms of one length the even-numbered inverse transforms are forward transforms, and with any
  lengths every one is a forward transform or loses a row (`CfftzDft.AnyInverse`).

In MG a number of the generator from 1 - 2^-25 on is narrowed to 1, outside the range that the candidate
search takes for granted; `SeededGrid` states when that does not happen.

Conventions: unsigned words are naturals, with wrap-around written out where the C code relies on it. The
regime loops that the kernels repeat are one method, `RegimeSplit.SplitRegime`. Numbers held in doubles by
the conversions are exact reals, because every operation the conversions perform on them (halving,
multiplying by 16 or 1/16, subtracting a leading digit) is exact in double arithmetic; in the random number
generator, where that exactness is the point, every operation is followed by a rounding of which only 48
mantissa bits are known. Arrays keep the origin the program gives them, so CG and the generator leave
element 0 alone; `rowstr[0]`, which the program never writes, only has to be nonnegative, because the loop
that touches the pages of the result starts from it.

The tracker relies on one assumption, made explicit as `Hardposits.Tracker.EarlierWriteLands`: when an
entry with an empty alias list is reused, the write of its previous result has landed. It is used only
there, and each use in which the write had not landed by itself is counted in `assumed`. Which programs
need it is decided by the program and the build alone, because write-back is in order and the host's own
state does not depend on timing: `LazyPrograms.Retains` says that, whenever an operation is issued, some
name still holds the result of the eighth operation before, or the host has waited for that result or a
later one (by reading it, by sending it by value, by recycling its entry, or in the BASELINE build).
`LazyPrograms.Run` shows that for these programs nothing is assumed under any interleaving, and that every
other program needs the assumption when the hardware moves only while the host waits.

A double assigned to a posit goes through `operator=(float const&)` (sw/Hardposit/src/hardposit.cpp:425),
so in FT and MG it is narrowed to single precision first. The narrowing is a parameter; what single precision
does to the numbers of the generator is a premise of `SeededGrid.SingleUnit` and `SeededGrid.SeedBenchmark`
only.

## Model

| member | source | states |
|---|---|---|
| `PositValue.ValPosOrder` | sw/SoftPosit/source/p32_lt.c:44-58 | The order of positive encodings, for every precision and exponent size, is the order of the values they decode to. |
| `PositRounding.RoundFields` | sw/SoftPosit/source/c_convertDecToPosit32.c:605-613 | Appending regime, exponent and fraction, cutting to n bits and adding the carry of the guard and sticky bits gives the standard's rounding of every real in the cell, for every n and es, whether the cut falls in the fraction or in the exponent. |
| `RegimeSplit.SplitRegime` | sw/SoftPosit/source/p32_mul.c:101-117 | The regime loop ends with the regime's meaning in k and the rest of the encoding left-aligned, for both signs of the regime and every width. |
| `P32Fields.ValueFromSplit` | sw/SoftPosit/source/c_convertPosit32ToDec.c:205-224 | What the loop leaves, read as exponent and fraction, is the value the standard gives the encoding. |
| `P32Fields.CutRounds` | sw/SoftPosit/source/p32_div.c:151-196 | With at most 30 regime bits the cut is the rounding of every real in the cell; with more, maxpos and minpos are. |
| `P32Mul.Multiply` | sw/SoftPosit/source/p32_mul.c:101-152 | Regime, exponent and fraction after both carries denote the exact product, and the fraction has at least as many trailing zeros as the shift by the regime will drop. |
| `P32Mul.Pack` | sw/SoftPosit/source/p32_mul.c:154-203 | The packed magnitude is the rounding of the product if and only if the product is not 2^119; for 2^119 it is one encoding too low. |
| `P32Mul.Mul` | sw/SoftPosit/source/p32_mul.c:46-208 | For all operands: NaR from NaR, and otherwise the correctly rounded product if and only if its magnitude is not 2^119, with the encoding returned in that case. |
| `P32Order.MulLosesSticky` | sw/SoftPosit/source/p32_mul.c:181-201 | 2^60 times 2^59 is such a product: the rounding is maxpos, which Mul does not return. |
| `P32Div.Divide` | sw/SoftPosit/source/p32_div.c:93-149 | Regime, exponent, quotient bits and remainder flag bracket the exact quotient after the borrow and after the one-place shift. |
| `P32Div.QuotientTruncates` | sw/SoftPosit/source/p32_div.c:130-147 | The integer quotient of the fractions is the truncated quotient of the numbers, and the remainder is nonzero exactly when bits were cut off. |
| `P32Div.Pack` | sw/SoftPosit/source/p32_div.c:151-196 | The packed magnitude is the rounding of the quotient in every regime range, saturation included. |
| `P32Div.Div` | sw/SoftPosit/source/p32_div.c:46-200 | NaR for NaR operands and a zero divisor; otherwise the correctly rounded quotient, for all operands. |
| `Quire32.Negate` | sw/SoftPosit/source/c_convertQuire32ToPosit32.c:67-79 | The limb loop is the two's complement of the whole 512-bit number, in place. |
| `Quire32.LeadingZeros` | sw/SoftPosit/source/c_convertQuire32ToPosit32.c:89-95 | The loop counts the leading zeros of a nonzero limb and returns the limb shifted up by them. |
| `Quire32.Normalise` | sw/SoftPosit/source/c_convertQuire32ToPosit32.c:82-115 | Leading zeros of all limbs, the 64 bits after them, and a sticky bit that is set exactly when a one is left below, across limb borders. |
| `Quire32.NormalisedCell` | sw/SoftPosit/source/c_convertQuire32ToPosit32.c:117-120 | The normalised limbs place q * 2^-240 in a cell of scale 271 minus the leading zeros. |
| `Quire32.Pack` | sw/SoftPosit/source/c_convertQuire32ToPosit32.c:119-175 | The packed magnitude is the rounding if and only if the value is not between 2^118 and 2^118 (1 + 2^-63); between them it is one encoding too low. |
| `Quire32.FromQuire` | sw/SoftPosit/source/c_convertQuire32ToPosit32.c:43-180 | For every quire: NaR to NaR, and otherwise the standard's rounding of q * 2^-240 if and only if its magnitude is not in that interval, with the encoding returned there. |
| `Quire32.QuireLosesSticky` | sw/SoftPosit/source/c_convertQuire32ToPosit32.c:155-173 | The quire of 2^358 + 1 units is in that interval: the rounding is maxpos, which FromQuire does not return. |
| `DoubleToP32.CheckExtraTwoBits` | sw/SoftPosit/source/c_convertDecToPosit32.c:459-467 | The guard bit is the next binary digit and the sticky bit says whether anything follows it. |
| `DoubleToP32.ConvertFraction` | sw/SoftPosit/source/c_convertDecToPosit32.c:468-509 | The loop yields exactly the first binary digits of the fraction with guard and sticky bits, for every length, also when it stops early. |
| `DoubleToP32.ScaleLarge` | sw/SoftPosit/source/c_convertDecToPosit32.c:571-578 | The scaling loops of a number above 1 end with it between 1 and 2 and account for every power of two taken out. |
| `DoubleToP32.ScaleSmall` | sw/SoftPosit/source/c_convertDecToPosit32.c:627-635 | The same for a number below 1, where the regime loop overshoots and the exponent loop corrects it. |
| `DoubleToP32.Assemble` | sw/SoftPosit/source/c_convertDecToPosit32.c:580-613 | The fields of a scaled number are assembled to its rounding, also with 29 and 30 regime bits. |
| `DoubleToP32.FromDouble` | sw/SoftPosit/source/c_convertDecToPosit32.c:511-681 | The standard's rounding of every finite number, and NaR for infinities and NaN. |
| `P32ToDouble.ToDouble` | sw/SoftPosit/source/c_convertPosit32ToDec.c:186-232 | The assembled 64 bits are those of the double whose value is exactly the posit's, and of NaN for NaR. |
| `P32ToDouble.RoundTrip` | sw/SoftPosit/source/c_convertPosit32ToDec.c:202-230 | Through double and back every encoding returns to itself, NaR through NaN. |
| `Int64ToP32.Normalise` | sw/SoftPosit/source/i64_to_p32.c:66-70 | The loop shifts the top one of the integer to bit 63 and log2 is its place. |
| `Int64ToP32.NearTop` | sw/SoftPosit/source/i64_to_p32.c:54-62 | All integers above the clamp, up to 2^63, round to the constant encoding. |
| `Int64ToP32.FromInt64` | sw/SoftPosit/source/i64_to_p32.c:46-87 | Every 64-bit integer is correctly rounded. |
| `P32ToInt.SplitIntegerPart` | sw/SoftPosit/source/p32_to_i64.c:71-80 | The loop leaves scale and fraction of the posit, left-justified. |
| `P32ToInt.RoundLarge` | sw/SoftPosit/source/p32_to_i64.c:71-102 | The masked rounding gives the nearest integer, ties to even, of every value above 5/2 up to 2^63. |
| `P32ToInt.ToInt64` | sw/SoftPosit/source/p32_to_i64.c:50-106 | The nearest integer of every posit, ties to even; the ends of the range beyond 2^63, and 0 for NaR. |
| `P32ToInt.FindUnits` | sw/SoftPosit/source/p32_roundToInt.c:71-81 | The mask ends on the bit of weight 1 inside the encoding. |
| `P32ToInt.RoundInPlace` | sw/SoftPosit/source/p32_roundToInt.c:83-94 | Rounding the bits of the encoding rounds the value to the nearest integer, also when the carry runs into exponent and regime. |
| `P32ToInt.RoundToInt` | sw/SoftPosit/source/p32_roundToInt.c:45-104 | The result denotes the nearest integer of the operand, ties to even, and large operands and NaR are returned unchanged. |
| `P32ToInt.RoundThroughInt64` | sw/SoftPosit/source/p32_roundToInt.c:45-104 | For every posit of magnitude at most 2^63, going through int64 and rounding in place give the same encoding. |
| `P16Widening.WidenMagnitude` | sw/SoftPosit/source/p16_to_p32.c:65-103 | Halving the regime and moving its parity into the exponent keeps the value. |
| `P16Widening.Widen` | sw/SoftPosit/source/p16_to_p32.c:43-108 | The value of every 16-bit posit is preserved, NaR included. |
| `P16Narrowing.ClampHigh` | sw/SoftPosit/source/p32_to_p16.c:67 | Every posit above the upper constant rounds to the 16-bit maxpos. |
| `P16Narrowing.ClampLow` | sw/SoftPosit/source/p32_to_p16.c:68 | Every posit below the lower constant rounds to the 16-bit minpos. |
| `P16Narrowing.NarrowMagnitude` | sw/SoftPosit/source/p32_to_p16.c:67-114 | The doubled regime, shifted fields and guard and sticky bits are the rounding with one exponent bit. |
| `P16Narrowing.Narrow` | sw/SoftPosit/source/p32_to_p16.c:47-121 | Every 32-bit posit is correctly rounded to 16 bits, NaR to NaR. |
| `P16Narrowing.NarrowWidened` | sw/SoftPosit/source/p32_to_p16.c:47-121 | Narrowing after widening is the identity. |
| `P32Order.LtIsLess` | sw/SoftPosit/source/p32_lt.c:44-58 | Signed comparison of encodings is comparison of values, equal encodings are equal values, and NaR is below all reals. |
| `P32Order.NextEncodingIsNextValue` | sw/SoftPosit/source/c_convertPosit32ToDec.c:203-222 | Adding one to an encoding gives the next larger value, through any carry; nothing representable lies between. |
| `P32Order.RoundingKeepsOrder` | sw/SoftPosit/source/i64_to_p32.c:46-87 | A correctly rounding operation is monotone in the exact result. |
| `P32Order.FromOrderedInt64` | sw/SoftPosit/source/i64_to_p32.c:46-87 | Of two 64-bit integers the larger never converts to the smaller encoding. |
| `P32Order.MinusNegates` | sw/Hardposit/src/hardposit.cpp:387-393 | Unary minus gives the negative of a real posit if and only if the posit is 1 or -1; it turns zero into NaR and NaR into zero, and nothing else into either. |
| `P32Order.MinusMirrors` | sw/Hardposit/src/hardposit.cpp:387-393 | What unary minus gives for every nonzero real posit: the negative of the value whose encoding lies opposite in its half, 0x80000000 - p for a positive and 0x180000000 - p for a negative posit p. |
| `OperandRing.AddressDecodes` | sw/Hardposit/src/hardposit.cpp:215-226 | The address and the byte offset of the n-th request decode to cell n mod 32 and the parity of its lap, although the pointer is a byte that wraps. |
| `OperandRing.LapsAlternate` | sw/Hardposit/include/config.h:13-30 | Requests fewer than 32 apart use different cells; 32 apart, the same cell with the other id. |
| `Accelerator.FetchIsDue` | src/main/scala/POSIT_Locality.scala:126-152 | In every reachable state a pending ring operand can be fetched at once and is the value its instruction needs: its cell has not been reused. |
| `Accelerator.ForwardIsDue` | src/main/scala/POSIT_Locality.scala:113-124 | A pending reference names an entry that still holds the instruction producing the operand, an earlier one. |
| `Accelerator.ExecutesDue` | src/main/scala/POSIT_Locality.scala:99-111 | An entry with all operands in place computes the result its instruction has in program order. |
| `Accelerator.WriteBackKeeps` | src/main/scala/POSIT_Locality.scala:42-55 | Write-back delivers the oldest unfinished result to its slot and keeps the invariant. |
| `Accelerator.StepKeeps` | src/main/scala/POSIT_Locality.scala:42-152 | Every step of the hardware, in any order, keeps the invariant. |
| `Accelerator.Progress` | src/main/scala/POSIT_Locality.scala:42-152 | As long as an instruction is unfinished some step is possible. |
| `Accelerator.StepWorks` | src/main/scala/POSIT_Locality.scala:42-152 | Every step uses up a bounded amount of work, so waiting ends under any scheduling. |
| `Accelerator.PutKeeps` | sw/Hardposit/src/hardposit.cpp:215-226 | Writing an operand cell destroys no operand that an unfinished instruction still has to fetch, over any number of requests. |
| `Accelerator.AcceptKeeps` | sw/Hardposit/src/hardposit.cpp:336-350 | Clearing the flags and issuing an instruction into a free entry keeps the invariant; no reference to the old occupant is left. |
| `Accelerator.ClearedStep` | sw/Hardposit/src/hardposit.cpp:344-350 | Between clearing the flags of a free slot and the request, every hardware step is possible exactly when it was before and has the same effect beside the cleared flags. |
| `Accelerator.DriftCleared` | sw/Hardposit/src/hardposit.cpp:344-350 | So whatever the hardware does there leaves a valid state with the flags cleared. |
| `Accelerator.StaleRead` | sw/Hardposit/src/hardposit.cpp:323-350 | If the entry still holds an instruction that has not been written back and the host does not wait for it, the request is not taken and the host reads the result of the instruction eight before. |
| `Accelerator.StaleRun` | sw/Hardposit/src/hardposit.cpp:323-350 | A run of nine instructions from reset in which that happens: the host reads 1 + 1 for 2 + 2, whatever addition is. |
| `Accelerator.Await` | sw/Hardposit/src/hardposit.cpp:136-140 | Spinning on the flags ends, the slot then holds the result of the entry's last instruction, and no later instruction has been written back meanwhile. |
| `AliasLists.ListMeans` | sw/Hardposit/src/hardposit.cpp:125-149 | All handles in the list of an entry denote the result of the entry's last instruction. |
| `AliasLists.CopyKeeps` | sw/Hardposit/src/hardposit.cpp:358-368 | Copying over a handle, also over itself, keeps every handle exactly once in its entry's list and in no other, with the members of a list valid together. |
| `AliasLists.DestroyKeeps` | sw/Hardposit/src/hardposit.cpp:370-376 | So does destroying one. |
| `AliasLists.ResolveKeeps` | sw/Hardposit/src/hardposit.cpp:128-149 | Delivering a result to all aliases changes no meaning when they stay listed. |
| `AliasLists.RecycleKeeps` | sw/Hardposit/src/hardposit.cpp:323-325 | Nor when they leave and the list is emptied, and then no handle depends on the entry. |
| `AliasLists.IssueKeeps` | sw/Hardposit/src/hardposit.cpp:327-346 | The new handle alone is listed at the recycled entry and denotes the new result; all others keep theirs. |
| `AliasLists.ThreeSent` | sw/Hardposit/src/hardposit.cpp:211-317 | Three operands sent one after the other, by value or by reference, make a request whose result in program order is the operation on the three values. |
| `Hardposits.Tracker.ReferenceOk` | sw/Hardposit/src/hardposit.cpp:211-213 | Whenever an operand is sent as a slot reference, the entry's most recent instruction is the producer of the operand and is fewer than eight instructions back. |
| `Hardposits.Tracker.New` | sw/Hardposit/src/hardposit.cpp:166-171 | A new object denotes its encoding; nothing else changes. |
| `Hardposits.Tracker.NewFromDouble` | sw/Hardposit/src/hardposit.cpp:173-191 | An object made from an integer, a float or a double denotes the standard's rounding of the number, and NaR for infinities and NaN; nothing else changes. |
| `Hardposits.Tracker.Copy` | sw/Hardposit/src/hardposit.cpp:358-368 | The copy denotes what the original denotes; nothing else changes. |
| `Hardposits.Tracker.Assign` | sw/Hardposit/src/hardposit.cpp:409-423 | The target denotes what the source denoted, also for self-assignment; nothing else changes. |
| `Hardposits.Tracker.Destroy` | sw/Hardposit/src/hardposit.cpp:370-376 | All other objects keep their meaning. |
| `Hardposits.Tracker.GetValAtSlot` | sw/Hardposit/src/hardposit.cpp:125-152 | All aliases of the entry get the result of its last instruction, whichever of the two branches supplies it. |
| `Hardposits.Tracker.GetVal` | sw/Hardposit/src/hardposit.cpp:154-164 | The value returned is what the object denotes, no object changes its meaning or its place, and the object's own instruction and all before it are then known to be written back. |
| `Hardposits.Tracker.PutOperand` | sw/Hardposit/src/hardposit.cpp:215-226 | An operand by value: its value is in the ring cell the address names. |
| `Hardposits.Tracker.SendOperand` | sw/Hardposit/src/hardposit.cpp:211-227 | An operand by reference or by value, by build and slot test, stands for what the object denotes; only by value does the host wait for it. |
| `Hardposits.Tracker.Recycle` | sw/Hardposit/src/hardposit.cpp:323-325 | Afterwards the entry is free, no object depends on it and all other objects stay where they are. A late write is assumed away exactly if the alias list was empty and the instruction of the entry had not been written back when the flags are cleared. |
| `Hardposits.Tracker.Issue` | sw/Hardposit/src/hardposit.cpp:327-350 | The instruction is issued and the returned object denotes its result, whatever the hardware does before and after the flags are cleared. |
| `Hardposits.Tracker.Compute` | sw/Hardposit/src/hardposit.cpp:192-357 | In all three builds the returned object denotes the operation on what the operands denote, at once and whatever the accelerator does. No write is assumed to have landed if some object stands for the eighth instruction before, if the host has waited for that one or a later one, or if it was written back at the start; with hardware that moves only while the host waits, one write is assumed in every other case. The BASELINE build ends with everything written back. |
| `LazyPrograms.Run` | sw/Hardposit/src/hardposit.cpp:125-423 | Every program of construction, copy, assignment, arithmetic, reads and destruction reads exactly the encodings that eager evaluation gives, for every build and every interleaving with the accelerator, and terminates. A program that retains needs no late write to be assumed away under any interleaving, and with hardware that moves only while the host waits exactly the programs that retain need none; BASELINE programs never do. |
| `LazyExpressions.CompiledPuts` | sw/Hardposit/src/hardposit.cpp:379-408 | After any program, the commands of an expression of constants, names, square roots, binary operations and FMA put into a name the value of the expression, computed by recursion over it, and change neither the names below nor the output. |
| `LazyExpressions.RunExpression` | sw/Hardposit/src/hardposit.cpp:125-423 | After any program, computing an expression with the lazy tracker and reading it gives the expression's value, in every build and under every interleaving, with temporaries of its own or in place. |
| `LazyExpressions.RunClosed` | sw/Hardposit/src/hardposit.cpp:125-423 | Computing and reading an expression without names outputs its value alone. |
| `LazyPrograms.BaselineRetains` | sw/Hardposit/src/hardposit.cpp:352-354 | In the BASELINE build every program retains. |
| `LazyPrograms.FreshRetains` | sw/Hardposit/src/hardposit.cpp:323-325 | In every build a program retains that gives each result a name of its own and drops none. |
| `Randdp.SplitProduct` | sw/NPBhardposit/common/c_randdp.c:55-68 | The 23-bit halves recombine to the product modulo 2^46. |
| `Randdp.Split` | sw/NPBhardposit/common/c_randdp.c:48-53 | An integer below 2^46 is split into its 23-bit halves without rounding error. |
| `Randdp.Cross` | sw/NPBhardposit/common/c_randdp.c:63-65 | The cross sum reduced modulo 2^23, exactly, with the cast in range. |
| `Randdp.Combine` | sw/NPBhardposit/common/c_randdp.c:66-68 | The recombined number reduced modulo 2^46, exactly, with the cast in range. |
| `Randdp.Randlc` | sw/NPBhardposit/common/c_randdp.c:18-71 | The seed becomes a * x mod 2^46 for all integers below 2^46 under every rounding that keeps 48-bit numbers, and the returned number is it times 2^-46. |
| `Randdp.Vranlc` | sw/NPBhardposit/common/c_randdp.c:75-136 | y[1..n] are the next n numbers of the stream and the seed is the last of them. |
| `Lcg.JumpAhead` | sw/NPBhardposit/FT/ft.cpp:287-293 | Multiplying by a^n mod 2^46 takes n steps of the stream at once. |
| `Lcg.Strides` | sw/NPBhardposit/FT/ft.cpp:293-310 | Stepping with a^m visits every m-th number of the stream. |
| `JumpAheads.Ipow46` | sw/NPBhardposit/FT/ft.cpp:316-351 | a^n mod 2^46 for every n, zero included. |
| `JumpAheads.Power` | sw/NPBhardposit/MG/mg.cpp:1111-1136 | a^n mod 2^46 for every n, by the other bit order. |
| `InitialConditions.FillPlane` | sw/NPBhardposit/FT/ft.cpp:302-307 | Element (j, i) of the plane takes its two numbers from the right places, each narrowed to single precision and correctly rounded to a posit, and the other planes are untouched. |
| `InitialConditions.RandomPlane` | sw/NPBhardposit/FT/ft.cpp:299-307 | The plane holds the piece of the stream that starts at its seed. |
| `InitialConditions.ComputeInitialConditions` | sw/NPBhardposit/FT/ft.cpp:272-311 | Element (k, j, i) of the part that begins at (zstart, ystart) holds the pair of numbers at the place of (zstart - 1 + k, ystart - 1 + j, i) in the whole array, in one stream from the seed, converted to posits. |
| `InitialConditions.PlaceOnto` | sw/NPBhardposit/FT/ft.cpp:298-310 | No number of the stream after the first plane's start is skipped. |
| `InitialConditions.PlaceOnce` | sw/NPBhardposit/FT/ft.cpp:298-310 | No number is used for two elements. |
| `InitialConditions.VranlcRow` | sw/NPBhardposit/common/c_randdp.c:139-199 | The generator's other form writes the next n numbers into a row of the grid and nothing else, each narrowed to single precision and correctly rounded to a posit. |
| `InitialConditions.SeedPlane` | sw/NPBhardposit/MG/mg.cpp:946-951 | The rows of a plane hold pieces of the stream, a stride of nx apart, converted to posits. |
| `InitialConditions.SeedGrid` | sw/NPBhardposit/MG/mg.cpp:930-953 | Point (i3, i2, i1) of the part that begins at (is3, is2, is1) holds the number of one stream at its place in the whole grid, converted to a posit. |
| `InitialConditions.GridNumberOnto` | sw/NPBhardposit/MG/mg.cpp:930-953 | Every number of the stream from the first one on belongs to a point of the whole grid. |
| `InitialConditions.GridNumberOnce` | sw/NPBhardposit/MG/mg.cpp:930-953 | No two points of the whole grid share a number. |
| `TopTen.SettledSorts` | sw/NPBhardposit/MG/mg.cpp:1154-1199 | Bubbling up the first entry sorts a table that is sorted but for that entry. |
| `TopTen.SettledSame` | sw/NPBhardposit/MG/mg.cpp:1154-1199 | It loses and invents nothing. |
| `TopTen.ScannedBest` | sw/NPBhardposit/MG/mg.cpp:973-992 | After any points the table is sorted, table and dropped points together are all points seen, and nothing dropped beats anything kept. |
| `TopTen.ScanFindsTen` | sw/NPBhardposit/MG/mg.cpp:963-992 | Ten or more points with values strictly between 0 and 1 leave the ten best of them, sorted, with no blank entry. |
| `TopTen.ScanFindsTenExactly` | sw/NPBhardposit/MG/mg.cpp:963-992 | The table holds the ten best points if and only if ten points beat the blank entries; otherwise a blank entry is left in it. |
| `Zran3.Tables.Bubble` | sw/NPBhardposit/MG/mg.cpp:1141-1201 | The four arrays move together as the specification moves points, in the given direction, and the other table is untouched. |
| `Zran3.Tables.Offer` | sw/NPBhardposit/MG/mg.cpp:976-989 | A grid value replaces the first entry exactly if it beats it, with its coordinates. |
| `Zran3.Tables.Scan` | sw/NPBhardposit/MG/mg.cpp:963-992 | For a grid without NaR, table 1 ends with ten different interior points, their coordinates and values, that ascend in posit value and that no other interior point exceeds, if and only if ten interior points are above 0; table 0 with the ten smallest, descending, if and only if ten are below 1. |
| `Zran3.GridOnce` | sw/NPBhardposit/MG/mg.cpp:973-975 | The loops visit every interior point once and no other. |
| `Zran3.UnitExactly` | sw/NPBhardposit/MG/mg.cpp:973-975 | The values visited are ten or more and strictly between 0 and 1 exactly if the interior has ten points and its encodings are. |
| `Zran3.BeatsIsOrder` | sw/NPBhardposit/MG/mg.cpp:976-983 | The program's comparison of grid points is the order of the values of their posits. |
| `Zran3.BestInValues` | sw/NPBhardposit/MG/mg.cpp:963-992 | Ten best in the program's comparison is ten largest, or ten smallest, in posit value. |
| `SeededGrid.UnitEncoding` | sw/SoftPosit/source/c_convertDecToPosit32.c:511-681 | A number is stored strictly between 0 and 1 if and only if it is positive and below 1 - 2^-29. |
| `SeededGrid.SeedAndScan` | sw/NPBhardposit/MG/mg.cpp:930-992 | Seeding and scanning together: all interior values are strictly between 0 and 1 if and only if the narrowed numbers at the places of the points in the whole grid are in that range, and then, with ten points or more, the tables hold the ten largest and the ten smallest values of the seeded grid. |
| `SeededGrid.SingleUnit` | sw/NPBhardposit/common/c_randdp.c:139-199 | With single precision and odd seeds a number of the generator is stored strictly between 0 and 1 exactly if it is not one of the last 2^21 below 2^46. |
| `SeededGrid.LargestNumber` | sw/NPBhardposit/common/c_randdp.c:139-199 | Such a number occurs: a seed that the largest number follows. |
| `SeededGrid.SeedBenchmark` | sw/NPBhardposit/MG/mg.cpp:915-992 | With the benchmark's own multiplier and seed: the same, and the condition is that no number at those places is one of the last 2^21 below 2^46. |
| `SparseRows.StartTotal` | sw/NPBhardposit/CG/cg.cpp:708-716 | The row starts leave room for all triples. |
| `SparseRows.UnmarkedIsZero` | sw/NPBhardposit/CG/cg.cpp:765-773 | A column that was never marked has sum zero, so the workspace is clean. |
| `SparseRows.MergedMeans` | sw/NPBhardposit/CG/cg.cpp:765-788 | A merged row repeats no column and holds a column exactly when its sum is not zero, with that sum. |
| `SparseRows.RowsFit` | sw/NPBhardposit/CG/cg.cpp:782-790 | The write index never overtakes unread input. |
| `SparseRows.RowSum` | sw/NPBhardposit/CG/cg.cpp:733-739 | Sorting by row keeps the list order within each row, so sums are folded in list order. |
| `SparseAssembly.CountRows` | sw/NPBhardposit/CG/cg.cpp:702-711 | rowstr counts the triples of each row, one place on. |
| `SparseAssembly.PrefixSums` | sw/NPBhardposit/CG/cg.cpp:713-716 | rowstr becomes the start of each row. |
| `SparseAssembly.BucketSort` | sw/NPBhardposit/CG/cg.cpp:733-739 | Each row's entries are in place in list order, and rowstr points behind them. |
| `SparseAssembly.ShiftBack` | sw/NPBhardposit/CG/cg.cpp:744-747 | Moving the pointers by one place restores the starts. |
| `SparseMerge.Accumulate` | sw/NPBhardposit/CG/cg.cpp:760-773 | The workspace holds the sums, the marks and the marked columns of the row, in order. |
| `SparseMerge.Extract` | sw/NPBhardposit/CG/cg.cpp:778-788 | The nonzero sums of the row are appended, the workspace is clear again, and nothing outside the row's room changes. |
| `SparseMerge.MergeRows` | sw/NPBhardposit/CG/cg.cpp:752-791 | All rows are merged in place and the row pointers follow. |
| `SparseMerge.SegmentAssembled` | sw/NPBhardposit/CG/cg.cpp:752-791 | A merged row is what the triples say, read from the sum of each row and column alone. |
| `SparseAssembly.Sparse` | sw/NPBhardposit/CG/cg.cpp:671-792 | For every triple list with rows and columns in range and every addition: monotone row pointers, no column twice in a row, each value the left fold of its triples, present exactly when that fold is not zero; the workspace is clear. |
| `Fft.DifIsDft` | sw/NPBhardposit/FT/ft.cpp:707-714 | Over every commutative ring with the right roots of unity in the table, the recursive decimation-in-frequency transform is the discrete Fourier transform. |
| `Stockham.StageColumns` | sw/NPBhardposit/FT/ft.cpp:787-820 | One stage splits every interleaved column into the sums and the twiddled differences of its halves. |
| `Stockham.PartialNext` | sw/NPBhardposit/FT/ft.cpp:732-736 | A stage takes every column one level down the recursion, in natural order. |
| `Cfftz.Butterflies` | sw/NPBhardposit/FT/ft.cpp:804-818 | Two rows get the butterfly of two rows, operation for operation, and the others are untouched. |
| `Cfftz.Fftz2` | sw/NPBhardposit/FT/ft.cpp:755-821 | The l-th iteration is one stage on every column of the block, in both directions; with is = -1 it also flips the sign bits of the twiddle factors in the table, and of no others. |
| `Cfftz.Stages` | sw/NPBhardposit/FT/ft.cpp:729-748 | The stages in turns between the two arrays, with the copy for odd m, end in x. |
| `Cfftz.Transform` | sw/NPBhardposit/FT/ft.cpp:701-749 | For is = 1 or -1, 1 <= m <= mx as read from the table, and n = 2^m, every column of x becomes its recursive decimation-in-frequency transform with the table that the call leaves, whatever addition, subtraction and multiplication are; other parameters are refused. |
| `Cfftz.Ilog2` | sw/NPBhardposit/FT/ft.cpp:827-845 | The exponent of a power of two. |
| `Cfftz.FftInit` | sw/NPBhardposit/FT/ft.cpp:659-695 | The table holds cosine and sine of the i-th multiple of pi / 2^(j-1) at place 2^(j-1) + i, for every level, as the stages expect, and the exponent first. |
| `CfftzDft.ComplexIsRing` | sw/NPBhardposit/FT/ft.cpp:804-818 | Complex arithmetic as the butterflies write it out is that of a commutative ring if the arithmetic on elements is. |
| `CfftzDft.LevelsAreRoots` | sw/NPBhardposit/FT/ft.cpp:681-694 | If cosine and sine give powers of roots of unity, the table holds the roots that transforms of every length up to its own need. |
| `CfftzDft.InitAndTransform` | sw/NPBhardposit/FT/ft.cpp:659-749 | Over a commutative ring of elements and with cosines and sines that give powers of roots of unity, the transform after the initialisation leaves in every column its discrete Fourier transform. |
| `CfftzDft.TurnPower` | sw/NPBhardposit/FT/ft.cpp:681-694 | From the addition theorems alone: the i-th power of the point at angle x is the point at angle i * x. |
| `CfftzDft.TurnsAreRoots` | sw/NPBhardposit/FT/ft.cpp:681-694 | From the addition theorems and the values at 0 and pi, with exact angles: the factors of level k in the table are the powers of the point at angle pi / 2^(k-1), which squares to the root of the level before, and whose 2^(k-1)-th power is -1. |
| `CfftzDft.TransformColumns` | sw/NPBhardposit/FT/ft.cpp:659-749 | Given the addition theorems over a commutative ring, with exact angles, the transform of length n = 2^m after the initialisation leaves in every column its discrete Fourier transform with the root cos(pi / 2^(m-1)) + i sin(pi / 2^(m-1)). |
| `CfftzDft.FlippedAfter` | sw/NPBhardposit/FT/ft.cpp:793-799 | After any run of transforms a factor is flipped exactly if the number of inverse transforms that reach its place is odd. |
| `CfftzDft.LevelLost` | sw/NPBhardposit/FT/ft.cpp:804-818 | If the first factor of a level has imaginary part NaR, every output that takes the differences on this level has both parts NaR, whatever the input; for any length and level, over arithmetic in which NaR is absorbing. |
| `CfftzDft.InitAndInverse` | sw/NPBhardposit/FT/ft.cpp:659-749 | Right after the initialisation an inverse transform leaves NaR in both parts of every output but the first, because sin(0) is zero and unary minus turns zero into NaR. |
| `CfftzDft.AnyInverse` | sw/NPBhardposit/FT/ft.cpp:701-749 | After any run of transforms since the initialisation an inverse transform is a forward transform, exactly if every level it uses has been flipped an odd number of times before, or leaves a row of NaR. |
| `CfftzDft.InverseTwice` | sw/NPBhardposit/FT/ft.cpp:793-799 | Of two inverse transforms of one length in a row the second uses the factors that the first has found, whatever the elements are. |

## Left out

- Hardposits.Tracker.EarlierWriteLands: is the assumption above, not code; what a program goes on to compute after a stale read is not modelled.
- Accelerator.AcceptKeeps: a request is accepted only when its entry is free, and all results complete by then have been forwarded, as the clock edges of the hardware do.
- Hardposits.Tracker.GetVal: statistics counters, `was_computed` and the object counter are not part of the objects.
- InitialConditions.SeedGrid: the points hold encodings only; the other fields that assignment from float sets, and the alias list that it leaves unrepaired, are not modelled.
- Cfftz.FftInit: cosine, sine and the conversion between integers and elements are parameters; nothing is said about their accuracy.
- CfftzDft.TransformColumns: takes the addition theorems, the values at 0 and pi, and angles without rounding as premises; functions on posits meet them only approximately.
- CfftzDft.InitAndTransform: states the transform over exact arithmetic; how far the rounding of posits takes the result from it is not modelled.
- Quire32.Pack: a right shift of a nonzero 64-bit word by 64 or more yields an unspecified word, and the result is shown not to depend on it.
- `p32_add`, `p32_sub`, `p32_mulAdd` and the quire accumulations: the same cut-and-round argument on other exact results.
- `p32_sqrt`: its approximation tables are not part of this model.
- 8- and 16-bit multiplication, division and quire conversions, instances of the same proofs, and the variable-width `pX1`/`pX2` formats and `p32_int`, whose intended results are unclear for negative shift counts.
- The quad-precision copies, the `SOFTPOSIT_EXACT` variants and the debug prints at sw/SoftPosit/source/p32_to_p16.c:90-91.
- Unary minus of Hardposit on an object that the tracker still lists (sw/Hardposit/src/hardposit.cpp:387-393): it changes one alias and not the others. In FT it is applied to table elements, which are not listed.
- Assignment from float as an operation of the tracker (sw/Hardposit/src/hardposit.cpp:425-431), which leaves the alias list unrepaired, and the comparisons, which read their operands and call the kernels.
- OPAE handles, control registers, memory barriers, performance counters, the arbiters' order and the cache-line coalescing of operand reads.
- The wrap of the 64-bit instruction counter: it is a natural number.
- The fields of the MG search after the candidates are found (sw/NPBhardposit/MG/mg.cpp:994-1073), the solvers, timers and output of the benchmarks.
