# A verified model of NEMU, its kernel and its game

NEMU is an IA-32 machine emulator with a built-in debugger; a small guest kernel and a typing game run
on it. This project models the parts of the three whose correctness is hardest to see, and proves what
they promise on all inputs and over all runs. `dafny verify dfyconfig.toml` checks everything.

| part | modules |
|---|---|
| shared types | `Options`, `Words` |
| soft-float unit | `Powers`, `Binary32`, `GuardBits`, `Normalizer`, `FloatAdd`, `FloatMul`, `Truncation`, `FloatDiv`, `Ties`, `FloatLaws` |
| breakpoints, `exec` and debugging sessions | `Marks`, `BreakpointPool`, `Execution`, `Requests`, `Rearming`, `Session` |
| expression evaluator of the debugger | `Tokens`, `Evaluator`, `Grammar`, `Operators` |
| paged memory | `Paging`, `Memory`, `SplitWrites` |
| kernel page tables | `KernelTables` |
| interrupt controller, gates, interrupt entry and return | `Pic`, `Deliveries`, `Gates`, `Interrupts` |
| arithmetic flags | `Alu` |
| pooled linked list and the typing game | `LinkList`, `Letters`, `Typing` |
| quicksort test program | `QuickSort` |

## How to read the results

**Soft float.** A magnitude of binary32 is the number of units of 2^-149 it stands for (`Binary32.Units`),
and `RoundsTo(n, d, m)` is round-to-nearest-even of `n / d` units as IEEE 754-2008 section 4.3.1 defines
it, overflow included. Addition and subtraction are correctly rounded for all operands that are not NaN: the
result is the rounding of the exact sum or difference of the signed values (`FloatAdd.IsSum`, `IsDifference`).
The normaliser is correctly rounded on every input but one band just below 2^-126, whose carry into the
normal range it loses, leaving zero (`Normalizer.LosesCarry`). Multiplication is correctly rounded if and
only if the product avoids that band and a second one, where the exponent handed over is 0 and is read on
the subnormal scale (`FloatMul.ProductIsSafe`). Division drops the remainder: it is correctly rounded if and
only if the truncated quotient is not in the band and is not a tie that rounds down over a nonzero remainder
(`FloatDiv.QuotientIsSafe`, and `Ties.HalfBits` for the tie as a test on bits). From 2^-126 up products are always
correctly rounded, and quotients always within 1/2 + 2^-16 units in the last place. In the band the result is always
zero where 2^-126 is right, and at such a tie always the number below the right one. Concrete operands show that each
of the bands is reached, by products and by quotients, and the ties by quotients.

**Breakpoints.** `Marks.Restored(mem, marks)` is the debugged program: memory with the live patched bytes
replaced by the saved ones. Every command keeps it as long as no breakpoint is set on an address that has
one; with two on one address, deleting keeps it exactly if the oldest opcode saved there stays the same.
`Execution.Debugger.View` is what the program sees, and every sequence of `exec` calls goes through the states of
the unpatched program, also with breakpoints set and deleted in between (`Session`). The program ends exactly with its
own trap (`Execution.Stops`), or goes on after it if a watchpoint fires there: the state is then `NEMU_READY`.
Assumptions about the machine: opcode 0xF1 has length 1 and does nothing but set `NEMU_BREAK`
(nemu/src/cpu/instr/nemu_trap.c:33-38, nemu/src/cpu/cpu.c:77-86), and the program neither reads nor writes the patched bytes
as data or operands (`Execution.Undisturbed`). A watched expression is any function of registers and memory; a call
ends after the first instruction that leaves one with another value than the one kept.

A stop takes the 0xF1 out, and only the next call puts it back, if it finds the state `NEMU_BREAK`. That a live
breakpoint is armed again once execution has moved past it is false: after `si` onto a breakpoint the count has run out,
the state is `NEMU_READY`, and the next call runs through it while it stays on the list (`Session.StepOnto`,
`Rearming.SteppedOnto`). Over every session that begins with all of them armed, all live breakpoints but the one stopped
at are armed exactly if no count ran out at an earlier stop, and no watchpoint fired there, whose breakpoint was neither
deleted nor re-armed since (`Rearming.AllArmedIff`); every call passes no armed breakpoint (`Rearming.Faithful`).

**Evaluator.** `Grammar.Expr` are the trees of the C grammar over the token kinds of the debugger. For every such
tree `eval` on the printed tokens is determined: it aborts if the tree has a `>` (whose case label is
the character 'A') or an operation like `(a)+(b)` that opens with one bracket and closes with another, and
otherwise it computes every operand, modulo 2^32, of the tree with each stack of unary operators cut to the innermost
one (`Grammar.Eager`). C's value (`Grammar.Value`) skips the right operand of `&&` after zero and of `||` after anything
else (C11 sections 6.5.13 and 6.5.14), so `0 && 1/0` is 0 in C while `eval` divides by zero. On a tree with `>` or such
brackets `eval` agrees with C exactly if the tree has no value in C. On a tree without stacked unary operators either it
agrees exactly if no operand, skipped or not, has a zero divisor, or C has no value either; on any other tree exactly if
the operators that are cut and the operands C skips make no difference.

What each operator computes on numbers is said apart from the evaluator, by one law each, and so is the order in which
operators bind (`Operators`).

**Memory.** `Paging.Gather` and `Scatter` translate every byte on its own. Reads equal `Gather` always. Writes look the
second page up after the first part is written, and so equal `Scatter` exactly if this lookup and the one before the
write lead to the same memory (`SplitWrites.SameStore`): to the same place, both to none, or to two places that
hold the data already. They are read back exactly if each page is then mapped as the write used it, or to a place that
holds its part of the data (`SplitWrites.StillThere`). Concrete page
tables show a write that is not byte-wise and one that cannot be read back. The model has the cache
and the TLB off, as include/config.h:8-12 has them.

**Interrupts.** `Pic.Run` is every interleaving of any number of device threads with the processor. Through a
trap gate the code sets IF (nemu/src/cpu/intr.c:38-41), while the Intel manual (volume 3A, section 6.12.1.3)
leaves it unchanged; the model follows the code, and the two agree exactly for interrupt gates and where IF was set. A
raise that comes between the processor's query and its acknowledgement is wiped out, however high its irq. `NR_PT` is
16 although the comment beside it says 15 (kernel/src/memory/vmem.c:7); the mapping covers the whole 64000 bytes.

## Model

| member | source | states |
|---|---|---|
| Normalizer.InternalNormalize | nemu/src/cpu/fpu.c:9-124 | for every int exponent and 64-bit significand the result is the value read, rounded to nearest even or infinity, except that the band losing its carry gives zero |
| Normalizer.ShiftRight | nemu/src/cpu/fpu.c:15-61 | however many jamming shifts it takes, the pair still decides the rounding of the value; too small becomes zero, too large infinity |
| Normalizer.ShiftLeft | nemu/src/cpu/fpu.c:62-84 | left normalising is exact, down to the subnormal scale |
| Normalizer.RoundOff | nemu/src/cpu/fpu.c:91-117 | dropping the guard bits, with the carry loop and the overflow |
| Normalizer.SubnormalIsRounded | nemu/src/cpu/fpu.c:97-117 | below 2^-126 rounding is correct unless it carries into the hidden bit, and then the result is zero |
| Binary32.OneKind | nemu/include/cpu/reg_fpu.h:45-54 | every word is finite, infinite or NaN, told apart by exponent and fraction |
| Binary32.KnownWords | nemu/include/cpu/fpu.h:11-16 | the named zeros, infinities and NaNs have these fields |
| GuardBits.JamShiftKeeps | nemu/src/cpu/fpu.c:26-28 | a right shift that jams the lost bit into the last one keeps what the last one says about the value |
| GuardBits.DropGuardBitsRounds | nemu/src/cpu/fpu.c:97-106 | rounding the three guard bits rounds the value they stand for to nearest even |
| GuardBits.TopExponentOverflows | nemu/src/cpu/fpu.c:33-39 | a pair that reaches exponent 255 stands for a value that rounds to infinity |
| FloatAdd.InternalFloatAdd | nemu/src/cpu/fpu.c:141-238 | a + b correctly rounded for all operands that are not NaN, with the IEEE signs of zero and rules for infinities |
| FloatAdd.InternalFloatSub | nemu/src/cpu/fpu.c:252-269 | the exact difference a - b correctly rounded for all operands that are not NaN, with its sign, the signs of zero differences, and infinities by the signs of a and b |
| FloatAdd.AddFinite | nemu/src/cpu/fpu.c:161-237 | the general path on finite operands, both signs, subnormals included |
| FloatAdd.Align | nemu/src/cpu/fpu.c:202-212 | the alignment loop jams all lost bits of the smaller significand |
| FloatAdd.SignedAdd | nemu/src/cpu/fpu.c:214-234 | the 32-bit two's complement addition gives sign and magnitude of the signed sum |
| FloatAdd.StickyIsInvisible | nemu/src/cpu/fpu.c:189-237 | with three extra bits, rounding the jammed sum is rounding the exact sum |
| FloatAdd.GuardedSumIsJammed | nemu/src/cpu/fpu.c:205-224 | the sum of the aligned significands brackets the exact sum, sign and zero included |
| FloatMul.InternalFloatMul | nemu/src/cpu/fpu.c:283-345 | infinities, zeros and signs of a product; a finite product is correctly rounded if and only if it is safe |
| FloatMul.ProductRoundsIff | nemu/src/cpu/fpu.c:309-344 | the product of two finite nonzero operands is correctly rounded if and only if it is safe |
| FloatMul.LostProduct | nemu/src/cpu/fpu.c:108-122 | in the band the product is always zero where 2^-126 is right |
| FloatMul.MisreadProduct | nemu/src/cpu/fpu.c:85-89 | a short significand at exponent 0 is read at twice its value, and the result is then never the rounded one |
| FloatDiv.InternalFloatDiv | nemu/src/cpu/fpu.c:362-427 | infinities, zeros and signs of a quotient; a finite quotient is correctly rounded if and only if it is safe, and near the exact one above the band |
| FloatDiv.QuotientRoundsIff | nemu/src/cpu/fpu.c:396-426 | the truncated quotient rounds like the exact one unless it is a tie over a dropped remainder or in the band |
| FloatDiv.UnsafeQuotient | nemu/src/cpu/fpu.c:396-426 | every quotient that is not correctly rounded is zero for 2^-126, in the band, or the number right below |
| FloatDiv.QuotientError | nemu/src/cpu/fpu.c:419-426 | within 1/2 + 2^-16 units in the last place of the exact quotient |
| FloatDiv.RaiseDividend | nemu/src/cpu/fpu.c:407-412 | the first loop shifts the dividend up to bit 63 and counts the shifts |
| FloatDiv.LowerDivisor | nemu/src/cpu/fpu.c:413-417 | the second loop removes the divisor's trailing zeros and counts them |
| Ties.TiesDownIsHalf | nemu/src/cpu/fpu.c:97-106 | such a tie is a one and zeros in the bits that rounding drops, below an even one |
| Ties.QuotientIsSafeIff | nemu/src/cpu/fpu.c:396-426 | when a quotient is correctly rounded, as a test on the exponent, bits and remainder the code computes |
| Truncation.TruncationRounds | nemu/src/cpu/fpu.c:419-426 | a quotient of 40 bits or more without its remainder rounds like the exact one if and only if it is not such a tie |
| Truncation.TieFallsShort | nemu/src/cpu/fpu.c:419-426 | and at such a tie to the neighbour below |
| Truncation.TruncationError | nemu/src/cpu/fpu.c:419-426 | the bound on the error of rounding the truncated quotient |
| FloatLaws.AddCommutes | nemu/src/cpu/fpu.c:141-238 | operands of an addition can be swapped |
| FloatLaws.MulCommutes | nemu/src/cpu/fpu.c:283-345 | operands of a multiplication can be swapped, also where the product is not correctly rounded |
| FloatLaws.ProductSign | nemu/src/cpu/fpu.c:298 | a product of finite nonzero operands is negative exactly if the product of their signed values is |
| FloatLaws.QuotientSign | nemu/src/cpu/fpu.c:396 | so is a quotient |
| FloatLaws.ExactQuotient | nemu/src/cpu/fpu.c:396-426 | a representable quotient is returned exactly |
| FloatLaws.NormalProductIsSafe | nemu/src/cpu/fpu.c:309-344 | products of at least 2^-126 are correctly rounded |
| FloatLaws.NormalQuotientIsNear | nemu/src/cpu/fpu.c:396-426 | finite quotients of at least 2^-126 are within 1/2 + 2^-16 units in the last place |
| FloatLaws.ProductLosesSmallestNormal | nemu/src/cpu/fpu.c:108-122 | operands whose product should round to 2^-126 and is zero |
| FloatLaws.ProductMisreadDoubles | nemu/src/cpu/fpu.c:85-89 | operands whose product is exactly 2^-130 and comes back as 2^-129 |
| FloatLaws.QuotientLosesSmallestNormal | nemu/src/cpu/fpu.c:108-122 | operands whose quotient should round to 2^-126 and is zero |
| FloatLaws.QuotientMissesTie | nemu/src/cpu/fpu.c:419 | operands whose truncated quotient is a tie over a dropped remainder, the right result and the one returned |
| BreakpointPool.Pool.constructor | nemu/src/monitor/breakpoint.c:13-26 | no live entry, all nodes free |
| BreakpointPool.Pool.NewBp | nemu/src/monitor/breakpoint.c:28-36 | the first free node leaves the free list and is marked in use |
| BreakpointPool.Pool.FreeBp | nemu/src/monitor/breakpoint.c:38-49 | the saved opcode is put back and the node returns to the free list |
| BreakpointPool.Pool.SetBreakpoint | nemu/src/monitor/breakpoint.c:51-64 | a new live entry in front, holding the byte it replaced; both lists stay well formed, disjoint and complete |
| BreakpointPool.Pool.SetWatchpoint | nemu/src/monitor/breakpoint.c:66-84 | a new live watchpoint in front, or nothing if the expression fails |
| BreakpointPool.Pool.DeleteBreakpoint | nemu/src/monitor/breakpoint.c:86-112 | the first entry with the number is unlinked, its byte restored, the rest keeps its order; false if there is none |
| BreakpointPool.Pool.DeleteAllBreakpoints | nemu/src/monitor/breakpoint.c:114-128 | all nodes free, every saved byte put back, oldest entry first |
| BreakpointPool.Pool.FindBreakpoint | nemu/src/monitor/breakpoint.c:153-166 | the newest live breakpoint on the address, or none |
| BreakpointPool.Pool.ResumeBreakpoints | nemu/src/monitor/breakpoint.c:168-180 | every live breakpoint armed, nothing else changed |
| BreakpointPool.Pool.MaskBreakpoints | nemu/src/monitor/breakpoint.c:182-193 | memory becomes the program |
| BreakpointPool.Pool.ScanWatchpoint | nemu/src/monitor/breakpoint.c:195-213 | the first watchpoint in the list whose expression has another value than the one kept, and that value |
| BreakpointPool.Pool.CheckWatchpoints | nemu/src/cpu/cpu.c:90-103 | whether there is one; its new value is the one kept from then on, and nothing else changes |
| Marks.SetKeepsProgram | nemu/src/monitor/breakpoint.c:51-64 | setting a breakpoint leaves the program under the patches as it was |
| Marks.DeleteKeepsProgramIff | nemu/src/monitor/breakpoint.c:86-112 | deleting one does, exactly if the oldest entry of its address stays the oldest |
| Marks.DeleteAllRestoresIff | nemu/src/monitor/breakpoint.c:114-128 | deleting all leaves the program exactly if the newest entry of each address saved what the oldest did |
| Marks.DoubleBreakpointCorrupts | nemu/src/monitor/breakpoint.c:51-128 | after two breakpoints on one address, delete-all and deleting them in the order they were set leave an 0xf1 in the program; only the opposite order does not |
| Marks.ExecuteKeepsProgram | nemu/src/monitor/breakpoint.c:51-193 | every command keeps the program while addresses are distinct |
| Marks.RunKeepsProgram | nemu/src/monitor/breakpoint.c:51-193 | so does every run of commands, and delete-all at its end leaves exactly the program |
| Marks.FirstChanged | nemu/src/monitor/breakpoint.c:195-213 | the watchpoint a scan finds has another value than the one kept, and all before it have the one kept |
| Execution.Debugger.ExecInst | nemu/src/cpu/cpu.c:66-67 | one instruction in patched memory is one of the program, and it ends the program exactly if the unpatched one is its trap; an 0xF1 only stops |
| Execution.Debugger.Restore | nemu/src/cpu/cpu.c:77-88 | the opcode goes back and eip in front of it, exactly at a live breakpoint |
| Execution.Debugger.RunOne | nemu/src/cpu/cpu.c:64-88 | one step of the program or none: a stop exactly before armed live breakpoints, the end exactly at the program's trap, its own 0xF1 exactly where it has one |
| Execution.Debugger.Step | nemu/src/cpu/cpu.c:64-103 | the loop body: that, and a stop exactly if a watched expression has changed |
| Execution.Debugger.Exec | nemu/src/cpu/cpu.c:49-123 | a call goes through the program's own states, passes no watched breakpoint and no change of a watched expression, stops only at live ones, ends the program exactly with the program's own trap, makes progress unless it starts at an armed one, and says what is armed afterwards |
| Execution.Debugger.ExecAll | nemu/src/cpu/cpu.c:49-123 | any sequence of calls goes through the program's own run |
| Execution.OrdinaryStep | nemu/src/cpu/cpu.c:66-67 | an instruction over patches is the program's instruction under them |
| Execution.CommandKeepsView | nemu/src/monitor/breakpoint.c:51-193 | debugger commands between calls do not change what the program sees |
| Execution.AdvanceByBytes | nemu/src/cpu/cpu.c:67 | instruction lengths add up around the end of the address space |
| Execution.StirredIff | nemu/src/monitor/breakpoint.c:195-213 | a scan finds a watchpoint exactly if some watched expression has another value, on the registers and memory of the moment, than the one kept |
| Rearming.ReachedUnarmed | nemu/src/cpu/cpu.c:70-88 | a call that finds the state of a stop arms all live breakpoints, any other none, and a stop at the end disarms its own |
| Rearming.UnarmedIff | nemu/src/cpu/cpu.c:49-123 | over a session: a live breakpoint is not armed exactly if a stop took its 0xf1 out and it was neither deleted nor re-armed since |
| Rearming.ForgottenIff | nemu/src/cpu/cpu.c:49-123 | apart from the last stop: exactly if the count of such a stop's call ran out there, or a watchpoint ended it |
| Rearming.AllArmedIff | nemu/src/cpu/cpu.c:49-123 | all live breakpoints but the one stopped at are armed exactly if no other stop is forgotten like that |
| Rearming.SteppedOnto | nemu/src/cpu/cpu.c:119-122 | `si` onto a breakpoint is such a stop, and the call after it does not re-arm |
| Rearming.EndedByProgram | nemu/src/monitor/ui.c:333-336 | where a record says that the program has ended, its last instruction was the unpatched program's trap |
| Session.Continue | nemu/src/monitor/ui.c:31-66 | `c` and `si` leave the list as it is, go through the program's run, pass no armed breakpoint, stop at armed ones only, and leave armed what the record says |
| Session.Handle | nemu/src/monitor/ui.c:31-217 | any of the commands does so, and makes the list the one the command says |
| Session.Serve | nemu/src/monitor/ui.c:278-338 | until the program ends, which it does exactly at its own trap, every session whose breakpoints are set where none is live is told by its record: each call's way through the program's own run, the breakpoints it passes and stops at, the list, and exactly what is armed |
| Session.StepOnto | nemu/src/monitor/ui.c:38-66 | on every program, `si` onto a breakpoint and then `c`: the breakpoint stays on the list, unarmed, and the program runs through it |
| Tokens.Atou | nemu/src/monitor/expr.c:328-334 | the decimal value modulo 2^32 |
| Tokens.Utoa | nemu/src/monitor/expr.c:336-351 | the shortest decimal digits, at most ten, then the NUL; none for zero |
| Tokens.UtoaThenAtou | nemu/src/monitor/expr.c:328-351 | every 32-bit number is read back unchanged |
| Evaluator.CheckParentheses | nemu/src/monitor/expr.c:493-509 | true exactly if the range opens with a bracket and ends with one |
| Evaluator.GetDominPos | nemu/src/monitor/expr.c:436-456 | the loops find the operator the scan of the range defines, and abort where it does |
| Evaluator.Eval | nemu/src/monitor/expr.c:365-432 | terminates on every range, with the value of the range as a function of its tokens; what that is for each operator is said by the rows of `Operators` |
| Grammar.MatchOver | nemu/src/monitor/expr.c:441-451 | bracket skipping passes over a whole printed tree |
| Grammar.ScanOver | nemu/src/monitor/expr.c:438-453 | scanning a printed tree leaves the better of the position before and the tree's own dominant operator |
| Grammar.DominantIsRoot | nemu/src/monitor/expr.c:436-456 | the operator found in a printed tree is its root, or the innermost of stacked unary ones |
| Grammar.BrokenAborts | nemu/src/monitor/expr.c:441-454 | a balanced range with a bracket closed before it is opened always aborts |
| Grammar.SplitParensAbort | nemu/src/monitor/expr.c:493-494 | operations like `(a)+(b)` always abort |
| Grammar.EvalPrint | nemu/src/monitor/expr.c:365-432 | the value of every printed tree |
| Grammar.EagerIsValue | nemu/src/monitor/expr.c:381-389 | where computing every operand gives a value, it is C's |
| Grammar.EvalAgreesIff | nemu/src/monitor/expr.c:365-432 | exactly when that is the value of C, which skips operands, for every tree |
| Grammar.SkippedOperandTraps | nemu/src/monitor/expr.c:381-415 | `0 && 1/0`, which is 0 in C, divides by zero |
| Grammar.StackedUnaryIsDropped | nemu/src/monitor/expr.c:440-453 | `- - 1` is -1 |
| Operators.SumLaw | nemu/src/monitor/expr.c:385-386 | `x + y` is the sum, less 2^32 if it overflows |
| Operators.DifferenceLaw | nemu/src/monitor/expr.c:387-388 | adding y to `x - y` gives x modulo 2^32 |
| Operators.ProductLaw | nemu/src/monitor/expr.c:389-390 | `x * y` differs from the product by a multiple of 2^32 |
| Operators.QuotientLaw | nemu/src/monitor/expr.c:391-392 | `x / y` is the largest number whose product with y is at most x, and a trap exactly if y is 0 |
| Operators.NegationLaw | nemu/src/monitor/expr.c:424-425 | adding x to `-x` gives 0 modulo 2^32 |
| Operators.TruthLaw | nemu/src/monitor/expr.c:395-408 | every comparison but `>`, and the logical operators, are 1 or 0 by the order of the numbers |
| Operators.GreaterLaw | nemu/src/monitor/expr.c:393-394 | `>` is 1 or 0 in C and aborts here |
| Operators.ShortCircuit | nemu/src/monitor/expr.c:405-408 | C's value of a logical operator after a number that decides, and after one that does not |
| Operators.NotLaw | nemu/src/monitor/expr.c:415-416 | `!x` is 1 exactly for 0, else 0 |
| Operators.DereferenceLaw | nemu/src/monitor/expr.c:419-423 | `*x` is what memory holds at x |
| Operators.OrLaw | nemu/src/monitor/expr.c:409-410 | bitwise or, bit by bit |
| Operators.XorLaw | nemu/src/monitor/expr.c:411-412 | exclusive or, bit by bit |
| Operators.AndLaw | nemu/src/monitor/expr.c:413-414 | bitwise and, bit by bit |
| Operators.ComplementLaw | nemu/src/monitor/expr.c:417-418 | the complement, bit by bit |
| Operators.ClassesBind | nemu/src/monitor/expr.c:475-491 | the priorities are in the order of C's classes of operators, and equal within a class |
| Operators.ThreeNumbers | nemu/src/monitor/expr.c:436-456 | of two operators between three numbers the right one is applied first exactly if its class binds tighter |
| Operators.ProductFirst | nemu/src/monitor/expr.c:485-486 | `x + y * z` and `x * y + z` compute the product first |
| Operators.LeftFirst | nemu/src/monitor/expr.c:436-456 | `x - y - z` is x - y, less z |
| Paging.GatherSplit | nemu/src/memory/memory.c:68-78 | reading a + b bytes is reading a bytes and the b bytes after them |
| Paging.GatherScatter | nemu/src/memory/memory.c:88-112 | what is written through a fixed map is read back through it, even if two pages share a frame |
| Paging.ScatterFrame | nemu/src/memory/memory.c:88-112 | a write changes nothing but the bytes it addresses |
| Memory.Machine.Read | nemu/src/memory/memory.c:11-16 | the little-endian value of the bytes |
| Memory.Machine.Write | nemu/src/memory/memory.c:18-21 | the little-endian bytes of the value |
| Memory.Machine.PageTranslate | nemu/src/memory/mmu/page.c:5-29 | the frame the two table entries give, with the page offset kept |
| Memory.Machine.LaddrRead | nemu/src/memory/memory.c:61-86 | with paging on exactly the bytes at the translated addresses, across pages and around the end of the address space; with paging off the bytes at the address itself, if it and they are in memory |
| Memory.Machine.LaddrWrite | nemu/src/memory/memory.c:88-112 | with paging on exactly the bytes of its two parts, the second page looked up after the first part is written; with paging off the bytes at the address itself |
| Memory.Machine.WriteThenRead | nemu/src/memory/memory.c:61-112 | with paging off what is written is read back, and nothing else changes |
| SplitWrites.WrittenIsBytewiseIff | nemu/src/memory/memory.c:88-112 | that is a byte-wise write through the map before it, exactly if the lookup of the second page after the first part leads to the same memory as the one before |
| SplitWrites.WrittenThroughUsed | nemu/src/memory/memory.c:88-112 | it is always a byte-wise write through the two lookups it makes |
| SplitWrites.ReadsIff | nemu/src/memory/memory.c:61-86 | a read returns a number exactly if each of its pages lies where the bytes of its part are |
| SplitWrites.ReadBackIff | nemu/src/memory/memory.c:61-112 | a following read returns the data exactly if both pages are mapped as the write used them, or to places that hold their part |
| SplitWrites.ReadAfterWrite | nemu/src/memory/memory.c:61-112 | nothing but the bytes written changes, and in particular they are read back if the pages are still mapped as the write used them |
| SplitWrites.WriteThatUnmapsItself | nemu/src/memory/memory.c:61-112 | a write that cannot be read back |
| Memory.WrittenIsBytewise | nemu/src/memory/memory.c:88-112 | in particular a write whose first part leaves the second page's table entries alone is byte-wise |
| Memory.ReadBackApart | nemu/src/memory/memory.c:61-112 | in particular a write that leaves its own table entries alone is read back |
| Memory.CrossingIntoItsOwnTable | nemu/src/memory/memory.c:98-104 | a write that is not byte-wise |
| KernelTables.Kernel.InitPage | kernel/src/memory/kvm.c:12-46 | the directory and tables built, entry by entry, the directory base loaded and the paging bit set |
| KernelTables.Kernel.InitMm | kernel/src/memory/mm.c:25-37 | the user directory has the kernel's upper entries and no others |
| KernelTables.Kernel.CreateVideoMapping | kernel/src/memory/vmem.c:14-36 | the first user entry leads to a table for exactly the video pages |
| KernelTables.EntryFields | kernel/include/memory.h:23-24 | an entry is present, writable and open to user code, and keeps the frame it is made for |
| KernelTables.KernelMapping | kernel/src/memory/kvm.c:22-35 | the walk maps every address below 128 MB, and the same from KOFFSET on, to that physical address, and nothing else |
| KernelTables.KernelReads | kernel/src/memory/kvm.c:22-35 | byte by byte, reads below 128 MB and from KOFFSET on return the same physical bytes |
| KernelTables.KernelRead | nemu/src/memory/memory.c:61-86 | so do the emulator's reads |
| KernelTables.UserMapping | kernel/src/memory/mm.c:29-34 | the user's walk agrees with the kernel's from KOFFSET on and maps nothing below |
| KernelTables.VideoMapping | kernel/src/memory/vmem.c:23-34 | the video range is mapped to itself, the rest is as before |
| Pic.AssertionHolds | nemu/src/cpu/cpu.c:150-161 | in every interleaving without irq 223 the assertion holds, pending interrupts stay visible, and deliveries are at most raises |
| Pic.EveryDelivery | nemu/src/device/i8259_pic.c:16-52 | each number delivered is 32 plus the highest irq raised since the acknowledgement before, up to the query |
| Pic.AssertionHoldsIff | nemu/src/cpu/cpu.c:150-161 | for any number of devices and any set of irqs they use, the assertion holds in every interleaving exactly if 223 is not among them |
| Pic.Irq223Fails | nemu/src/device/i8259_pic.c:25-30 | any device that raises irq 223 first makes the assertion fail |
| Deliveries.DeliveryIsTimely | nemu/src/cpu/cpu.c:150-161 | the i-th delivery goes with the i-th acknowledgement of the run, and the raises it answers are those after the one before and up to a query in between |
| Deliveries.RaiseFate | nemu/src/device/i8259_pic.c:11-52 | every raise is pending, answered by one delivery, or lost between its query and its acknowledgement: exactly one of these |
| Deliveries.HigherRaiseIsLost | nemu/src/cpu/cpu.c:150-161 | a raise in that gap is never delivered, however high its irq |
| Pic.RunKeeps | nemu/src/device/i8259_pic.c:16-52 | mutual exclusion, bookkeeping and the agreement of flag and number hold after every step of every interleaving |
| Pic.Controller.RaiseIntr | nemu/src/device/i8259_pic.c:16-37 | the code of a call is the five steps of a device |
| Pic.Controller.DoIntr | nemu/src/cpu/cpu.c:150-161 | the code of a call is the processor's steps, or the failed assertion |
| Gates.DecodeEncode | nemu/include/cpu/intr.h:7-19 | the emulator reads back every field the kernel wrote |
| Gates.GateLeads | kernel/src/irq/idt.c:11-34 | a gate made for an offset and selector is present, at the privilege level asked for, and leads there |
| Gates.Table.SetIntr | kernel/src/irq/idt.c:11-21 | the entry is the interrupt gate of the arguments |
| Gates.Table.SetTrap | kernel/src/irq/idt.c:24-34 | the entry is the trap gate of the arguments |
| Gates.Table.InitIdt | kernel/src/irq/idt.c:59-93 | every one of the 256 entries is the one it is for |
| Gates.KernelGate | kernel/src/irq/idt.c:59-91 | every entry is present and leads to its handler in the kernel's code segment, through an interrupt gate exactly for the four devices, and open to user code exactly for the system call |
| Interrupts.FrameHolds | nemu/src/cpu/intr.c:24-29 | after the pushes EIP, CS and EFLAGS lie from the new stack pointer up |
| Interrupts.FrameLeaves | nemu/src/cpu/intr.c:8-29 | nothing outside the twelve bytes changes |
| Interrupts.FlagsAgreeIff | nemu/src/cpu/intr.c:38-41 | EFLAGS are what the Intel manual says exactly for interrupt gates, and for trap gates with IF set |
| Interrupts.Processor.RaiseIntr | nemu/src/cpu/intr.c:20-54 | through any gate the frame does not overlap: EIP and CS are the gate's, IF is clear exactly for interrupt gates with all other flags kept, and the frame is pushed |
| Interrupts.Processor.RaiseKernelIntr | nemu/src/cpu/intr.c:20-54 | through the kernel's table every number gets to its handler in the kernel's code segment, with IF clear exactly for the four devices |
| Interrupts.Processor.Iret | nemu/src/cpu/instr/iret.c:17-27 | EIP, CS and EFLAGS are popped in this order |
| Interrupts.Processor.RaiseAndReturn | nemu/src/cpu/intr.c:20-54 | raise and return restore EIP, CS, EFLAGS and ESP |
| Alu.Cpu.SetCFAdd | nemu/src/cpu/alu.c:7-11 | comparing sign-extended words compares the operands as unsigned numbers |
| Alu.Cpu.SetPF | nemu/src/cpu/alu.c:13-25 | PF is the even parity of the low eight bits |
| Alu.Cpu.Add | nemu/src/cpu/alu.c:60-75 | result and CF are the exact sum of the operands, OF is signed overflow, ZF, SF and PF describe the result |
| Alu.Cpu.Adc | nemu/src/cpu/alu.c:90-107 | likewise with the carry in |
| Alu.Cpu.Sub | nemu/src/cpu/alu.c:145-160 | result and CF are the exact difference with its borrow |
| Alu.Cpu.Sbb | nemu/src/cpu/alu.c:175-191 | likewise with the borrow in |
| Alu.SumOverflow | nemu/src/cpu/alu.c:37-58 | the sign rule of OF is signed overflow, also with a carry in |
| Alu.DifferenceOverflow | nemu/src/cpu/alu.c:119-143 | likewise for differences, also with a borrow in |
| Alu.SizeIsPower | nemu/src/cpu/alu.c:8-9 | operands of width n are numbers below 2^n |
| Alu.SignedIs | nemu/src/cpu/alu.c:8-9 | a signed operand is the n-bit two's complement value that agrees with it modulo 2^n |
| Alu.FlagsDecide | nemu/include/cpu/instr_helper.h:169-218 | the flags of a difference decide equality and both orders |
| Alu.Cpu.Compare | nemu/include/cpu/instr_helper.h:169-218 | after a subtraction the ten conditions are equality and the unsigned and signed order |
| Alu.AddNumbers | nemu/src/cpu/alu.c:60-107 | add and then adc along any number of words is the exact sum, the last CF its carry out |
| Alu.SubtractNumbers | nemu/src/cpu/alu.c:145-191 | sub and then sbb is the exact difference, the last CF its borrow |
| LinkList.InsertBetween | game/include/adt/linklist.h:77-86 | inserting anywhere keeps the list well formed in both directions |
| LinkList.RemoveBetween | game/include/adt/linklist.h:87-95 | so does removing |
| LinkList.Pool.New | game/include/adt/linklist.h:48-66 | a node that is neither live nor free, and none exactly when all but the last are out |
| LinkList.Pool.Insert | game/include/adt/linklist.h:77-86 | the links written |
| LinkList.Pool.Remove | game/include/adt/linklist.h:87-95 | the links written |
| LinkList.Pool.Free | game/include/adt/linklist.h:96-100 | the node is in front of the free list, which still ends in the last element |
| LinkList.CountCover | game/include/adt/linklist.h:61 | a list that covers the pool has as many elements as it, so the assertion fails exactly at capacity |
| Typing.Field.CreateNewLetter | game/src/typing/effect.c:32-50 | a new letter in front, within capacity; live and free lists stay disjoint and complete |
| Typing.Field.UpdateLetterPos | game/src/typing/effect.c:53-73 | every letter moves, those off the screen are counted as hit or miss and given back, the others keep their order |
| Typing.Field.UpdateKeypress | game/src/typing/effect.c:76-102 | the first of the lowest falling letters with a pressed key turns upwards, if there is one |
| Typing.Field.Play | game/src/typing/effect.c:32-102 | every run of events does on the pool what it means on the letters |
| Letters.EveryLetterCounted | game/src/typing/effect.c:56-72 | a tick leaves, hits or misses each letter once |
| Letters.SurvivorsOnScreen | game/src/typing/effect.c:59-71 | what is left is on the screen |
| Letters.TickKeeps | game/src/typing/effect.c:56-72 | a tick leaves exactly the letters that stay on the screen, in order, each moved by its speed |
| Letters.HitsAre | game/src/typing/effect.c:62-64 | a hit is counted for each letter that leaves at the top |
| Letters.MissesAre | game/src/typing/effect.c:65-66 | a miss for each that leaves at the bottom |
| Letters.RunConserves | game/src/typing/effect.c:32-102 | in every run the letters created are those live, hit and missed |
| QuickSort.HoleMoves | testcase/src/quick-sort.c:15-19 | moving the hole keeps the multiset once the pivot is counted in it |
| QuickSort.Partition | testcase/src/quick-sort.c:7-24 | the pivot's place, with smaller or equal elements left of it and larger ones right, nothing lost |
| QuickSort.Sort | testcase/src/quick-sort.c:26-34 | sorted, a permutation, and nothing outside the range touched |
| QuickSort.SortedUnique | testcase/src/quick-sort.c:36-57 | two sorted permutations are equal |
| QuickSort.SortTwice | testcase/src/quick-sort.c:36-57 | on any permutation of 0 .. n-1 both checks of the program pass |

## Left out

- FloatAdd.InternalFloatAdd: what is returned for NaN operands is not stated; which payload comes back depends on tables and argument order and carries no meaning.
- FloatMul.InternalFloatMul: likewise for NaN operands.
- FloatDiv.InternalFloatDiv: likewise for NaN operands.
- The FPU register stack, its loads and stores, and comparisons: table moves, and host floats for the comparisons.
- Execution.Debugger.Exec: no halt state, devices or interrupts inside the loop; an instruction set is any function that fits the assumptions above.
- Execution.Debugger.Step: likewise.
- Execution.Debugger.ExecAll: likewise, and neither commands between the calls nor their stops; those are in `Session.Serve`.
- Session.Continue: no halt state, devices or interrupts, as for `Exec`.
- Session.Handle: likewise.
- Session.Serve: likewise; reading and parsing a command line, and commands that only print, are not part of this model.
- Breakpoint `enable` flags, listing and printing: the flag is only printed.
- The value of a watched expression is a function of its text, registers and memory, not the evaluator's; the new value is kept for printing only and is not a field of the model.
- Evaluator.Eval: reading guest memory for the dereference operator is a function parameter, and aborting is a missing value.
- Tokenising with regular expressions, symbol and register lookup, and how `*` and `-` are classified as unary.
- Memory.Machine.LaddrWrite: no memory-mapped devices, cache, TLB or segments, as for `LaddrRead`.
- Memory.Machine.LaddrRead: no memory-mapped devices, cache, TLB or segments; an access outside the array, undefined in C, is a missing value.
- Interrupts.Processor.RaiseIntr: the page map is fixed during the pushes, segments are flat, and reading the code segment's descriptor is not part of this model.
- Interrupts.Processor.RaiseKernelIntr: likewise.
- Interrupts.Processor.Iret: segments are flat, and reading the code segment's descriptor is not part of this model.
- Interrupts.Processor.RaiseAndReturn: the handler between the two is assumed to leave stack and memory as it found them.
- KernelTables.KernelMapping: that the arrays lie in physical memory at their load addresses is a premise (`Holds`); the segment table, `brk` and the read and write checks of video memory are not part of this model.
- Pic.AssertionHolds: locking never fails, so the early returns for a stopped emulator are not taken; how long a thread waits is not modelled.
- Multiplication, division, shift and logic flags of the arithmetic unit.
- Typing.Field.UpdateLetterPos: positions and speeds are real numbers, not floats; random choices are arguments.
- Typing.Field.Play: likewise, and without the disabling of interrupts around the search for a key.
- Typing.Field.UpdateKeypress: disabling interrupts around the search is not modelled, so neither is the path that returns without enabling them again.
- Drawing, sound, the file system, loaders, device models, the instruction decoders and the large game: input and output, or easy next to the above.
