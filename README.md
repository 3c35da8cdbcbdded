# Tomasulo draft simulator: the instruction decoder and the per-cycle phases

This project models the core of a draft Tomasulo-algorithm simulator written in C++ (`main.cpp`).
It has four modules:

- **`Decoder`** (`decoder.dfy`) is the instruction decoder.
  - `ParseHex` and `ParseDec` are `parse_hex` and `parse_dec`. Each loop is proved equal to a fold over the characters it reads (`HexValue`, `DecValue` of `Scanned`).
  - `ParseLine` is `parse_line`. Its three scans are the methods `ScanComma` and `ScanStop`, and it is proved equal to the function `Decode`.
  - A C string is a `seq<char>` without its terminator; `At(s, |s|)` is the NUL.
- **`Encoding`** (`encoding.dfy`) holds an independent partner for the decoder.
  - It renders operands (`R<decimal>`, or hexadecimal in either case with or without a `0x` prefix) and builds instruction lines from them.
  - It proves that decoding a rendered line gives back the rendered values.
- **`Machine`** (`machine.dfy`) is the machine as a value (`Tables`).
  - The value holds the reservation stations `rs[9]`, the load buffers `lb[3]`, the function units `fu[7]`, the register status table `reg_state[32]` and each one's shadow copy (the `Next` tables). It also holds the register file, `pc`, the pending-jump state and the list of in-flight instructions.
  - Each phase of one simulated cycle is a function: `CopyStep`, `SyncStep`, `CountDownStep`, `IssueStep` and `DispatchStep`.
  - The lemmas state what each phase does, that each phase keeps the invariant `Inv`, and what the draft's quirks lead to.
- **`Simulator`** (`tomasulo.dfy`) holds the class `Tomasulo`.
  - Its tables are arrays updated in place. `Sync` swaps the array references, as the C++ swaps pointers.
  - Each phase is a method. Its postconditions say that every array or field the method may change now equals that component of the matching `Machine` function applied to the snapshot `State()` taken before the call. The `modifies` clause keeps every other field and array unchanged.

## Behaviour modelled as written

The model follows the draft's code, including behaviour that looks unintended, even where a finished Tomasulo machine would behave differently.

- Both sources of an arithmetic issue are read into `vj`/`qj`, so the second source overwrites the first. `vk` and `qk` are never written (`IssueSecondSourceWins`).
- Register status values are 0-based slot indices, and `< 0` means ready. The table starts zeroed, while a station tag of 0 also means ready. So a source whose status is 0 reads as ready without its value being read (`TagZeroLooksReady`).
- Dispatch finds an idle unit in the *current* unit table but writes the *shadow* one. So if the dispatch branch were applied to two ready instructions of the same class before a `sync`, both would claim the same unit (`DispatchDoubleClaim`). The draft's own traversal never reaches a second instruction (see "## Left out").
- A jump dispatches with 3 cycles, like add and sub.
- `copy` copies only the first 3 of the 7 units. It copies `32 * sizeof(bool)` bytes of the status table, which is the first 8 four-byte `int` entries (`RegStateCopied`).
- Issue of a jump records the jump's `op[2]` and `op[0]` and leaves `pc` where it is.
- Issue of a jump also marks register `op[0]`, which is the jump's comparison value and not a register, as produced by the jump's station.

## Model

| member | source | states |
|---|---|---|
| Decoder.ParseHex | main.cpp:14-31 | the result is the base-16 fold, skipping every 'x', of exactly the characters read: up to `len`, stopping at the terminator |
| Decoder.ParseDec | main.cpp:33-40 | the result is the base-10 fold of exactly the characters read: up to `len`, stopping at the terminator |
| Decoder.ScannedIsPrefix | main.cpp:17 | a scan that stops at NUL or after `len` characters has read exactly the prefix where that condition first holds |
| Decoder.KindByLetter | main.cpp:44-57 | each of 'A', 'S', 'M', 'D', 'L' chooses its opcode, and every other first character chooses jump (both directions) |
| Decoder.CommaFrom | main.cpp:59-61 | the position a comma scan stops at is a comma at or after its start |
| Decoder.CommaFromLeast | main.cpp:59-61 | a comma scan stops at the first comma: at or before any comma after its start |
| Decoder.StopFrom | main.cpp:69 | the third scan stops at a comma, at a NUL or at the terminator, and never before its start |
| Decoder.StopFromLeast | main.cpp:69 | the third scan stops at the first comma or NUL after its start |
| Decoder.ScanComma | main.cpp:59-61 | the loop stops at the first comma from its start |
| Decoder.ScanStop | main.cpp:69 | the loop stops at the first comma, NUL or terminator from its start |
| Decoder.ParseField | main.cpp:62-67 | a comma-bounded field is read in base 10 after an 'R' and in base 16 otherwise, no further than the comma |
| Decoder.ParseLastField | main.cpp:77-87 | the last field is read in the same way with the default length of 20 |
| Decoder.DecodeFromScans | main.cpp:58-89 | the positions the scans find and the fields read between them give `Decode` of the line |
| Decoder.ParseLine | main.cpp:42-91 | `parse_line` returns `Decode` of every delimited line |
| Encoding.HexDigitOfHexChar | main.cpp:21-27 | every hexadecimal digit, upper or lower case, reads back as its value |
| Encoding.DecRoundTrip | main.cpp:33-40 | the decimal digits of any natural number read back as that number |
| Encoding.HexRoundTrip | main.cpp:14-31 | the hexadecimal digits of any natural number, in either case, read back as that number |
| Encoding.HexValueZeroPrefix | main.cpp:18-22 | a prefix that reads as 0 in base 16 (such as `0x`) does not change the value of what follows |
| Encoding.FieldReadsValue | main.cpp:62-67 | a rendered operand between commas reads back as its value, as a register number after 'R' or as an immediate |
| Encoding.LastFieldReadsValue | main.cpp:77-87 | a rendered operand within the default length, ending the line, reads back as its value |
| Encoding.CommaFromIs | main.cpp:59-61 | a comma scan from a position with no comma before `k` stops exactly at the comma at `k` |
| Encoding.StopFromIs | main.cpp:69 | the third scan stops exactly at the first comma or at the terminator |
| Encoding.CommasAt | main.cpp:58-69 | a line whose commas are at 1 and `c2` decodes with those scan positions |
| Encoding.CommasAt3 | main.cpp:70-81 | such a line with a third comma decodes into its three fields |
| Encoding.CommasAt2 | main.cpp:82-89 | such a line without a third comma decodes into two fields with `op[2]` 0 |
| Encoding.FieldsRead3 | main.cpp:62-81 | the three rendered fields of a line read back as their values |
| Encoding.DecodeFields3 | main.cpp:42-91 | a line of three rendered fields decodes into their values |
| Encoding.DecodeFields2 | main.cpp:42-91 | a line of two rendered fields decodes into their values and 0 |
| Encoding.DecodeLine3 | main.cpp:42-91 | every line built from an opcode letter and three rendered operands is delimited and decodes into that opcode and those values |
| Encoding.DecodeLine2 | main.cpp:42-91 | every line built from an opcode letter and two rendered operands is delimited and decodes into that opcode, those values and 0 |
| Encoding.DecodeAddExample | main.cpp:42-91 | "A,R1,R2,R3" decodes into an add with operands 1, 2 and 3 |
| Encoding.DecodeLoadExample | main.cpp:42-91 | "L,R1,0x5" decodes into a load with operands 1, 5 and 0 |
| Encoding.DecodePlainLoadExample | main.cpp:42-91 | "L,R2,1f", whose immediate has no `0x`, decodes into a load with operands 2, 31 and 0 |
| Encoding.HexExamples | main.cpp:14-31 | "0x1F" and "1f" both read as 31 |
| Machine.InitialInv | main.cpp:169-187 | the zeroed machine satisfies the invariant, and every register status starts at 0 |
| Machine.FreeRs | main.cpp:228-234 | the search returns the lowest station of its range that is not busy, with every lower one busy, or the range's end |
| Machine.FreeLb | main.cpp:347-354 | the search returns the lowest free load buffer, with every lower one busy, or 3 |
| Machine.IdleFu | main.cpp:433-439 | the search returns the lowest unit of its range with no cycles left, with every lower one busy, or the range's end |
| Machine.IssueStalls | main.cpp:222-235 | issue leaves the machine unchanged exactly when a jump is pending or no slot of the command's range is free |
| Machine.IssueFrame | main.cpp:222-416 | issue never writes the current tables, the register file or the units |
| Machine.IssueAppends | main.cpp:235-242 | a successful issue appends the command at `pc` as an issued instruction on the lowest free slot of its range, with every lower slot busy |
| Machine.IssuePc | main.cpp:244-245 | an arithmetic or load issue advances `pc` by one; a jump issue leaves `pc` and records the jump's target and compared value |
| Machine.IssueWrites | main.cpp:247-267 | a successful issue marks the slot busy with the opcode's `op` (a load buffer with the address), the destination's status names the slot, and nothing else in the shadow tables changes; a jump's station (as at lines 401-410) takes `qj` from `op[1]` (0 when that register is ready, else its status), and `vj` from `R[op[1]]` when that register is ready |
| Machine.IssueSecondSourceWins | main.cpp:251-264 | `qj` comes from the second source alone, and a ready second source erases every trace of the first |
| Machine.TagZeroLooksReady | main.cpp:251-257 | a source whose status is 0 gives tag 0 and leaves `vj` unread |
| Machine.IssueKeepsInv | main.cpp:222-416 | issue keeps the table sizes, the non-negative counts and the well-formed in-flight list |
| Machine.DispatchWhen | main.cpp:424-486 | dispatch changes an instruction exactly when it is issued, ready and has an idle unit in its range; otherwise nothing changes |
| Machine.DispatchWrites | main.cpp:426-466 | a dispatched instruction runs on the lowest idle unit of its range for its latency (3; 4 for mul; 1 for a div by zero), and only that shadow unit and the instruction change |
| Machine.LoadDispatchesToSix | main.cpp:468-483 | an issued load with unit 6 idle always dispatches to unit 6 |
| Machine.DispatchDoubleClaim | main.cpp:433-443 | with no `sync` in between, the dispatch branch applied to two ready instructions of one class gives both the same unit |
| Machine.DispatchKeepsInv | main.cpp:424-486 | dispatch keeps the invariant |
| Machine.CountDownExact | main.cpp:214-219 | the countdown takes exactly one from each positive count of a shadow unit, leaves every other count and every id alone, and changes nothing else |
| Machine.CountAfter | main.cpp:214-219 | after `n` countdowns a unit with `c >= 0` cycles has `max(c - n, 0)` |
| Machine.IdleAfterLatency | main.cpp:214-219 | a unit given a latency of at least 1 is idle after exactly that many countdowns |
| Machine.CountDownKeepsInv | main.cpp:214-219 | the countdown keeps the invariant |
| Machine.CopyAgrees | main.cpp:141-147 | after `copy` the shadow stations and load buffers equal the current ones, units below 3 and statuses below 8 are copied, the other entries keep their shadow values, and nothing else changes |
| Machine.CopyIdempotent | main.cpp:141-147 | copying twice is the same as copying once |
| Machine.SyncInvolution | main.cpp:149-166 | one sync swaps each of the four tables with its shadow and leaves the register file, `pc`, the jump state and the in-flight list alone; syncing twice restores the machine |
| Machine.CopyThenSync | main.cpp:141-166 | `copy` then `sync` keeps the current stations and load buffers; the current units from 3 on and the statuses from 8 on become the old shadow entries |
| Machine.CopyKeepsInv | main.cpp:141-147 | `copy` keeps the invariant |
| Machine.SyncKeepsInv | main.cpp:149-166 | `sync` keeps the invariant |
| Simulator.Tomasulo.constructor | main.cpp:169-187 | every array has its size and is distinct from its shadow, and every table, register, `pc` and jump field starts at zero (`Initial`) |
| Simulator.Tomasulo.Copy | main.cpp:141-147 | the shadow arrays then hold `CopyStep` of the previous state |
| Simulator.Tomasulo.Sync | main.cpp:149-166 | the swapped array references hold `SyncStep` of the previous state, and the arrays stay distinct |
| Simulator.Tomasulo.CountDown | main.cpp:214-219 | the shadow unit array then holds `CountDownStep` of the previous state |
| Simulator.Tomasulo.FindFreeRs | main.cpp:228-234 | the loop finds `FreeRs` of the current stations and reports whether it lies in the range |
| Simulator.Tomasulo.FindFreeLb | main.cpp:347-354 | the loop finds `FreeLb` of the current load buffers and reports whether one is free |
| Simulator.Tomasulo.FindIdleFu | main.cpp:433-439 | the loop finds `IdleFu` of the current units and reports whether it lies in the range |
| Simulator.Tomasulo.Issue | main.cpp:222-416 | the shadow tables, `pc`, the jump fields and the in-flight list then hold `IssueStep` of the previous state |
| Simulator.Tomasulo.IssueToRs | main.cpp:224-345 | the same for an add, sub, mul or div |
| Simulator.Tomasulo.IssueToLb | main.cpp:346-376 | the same for a load |
| Simulator.Tomasulo.IssueJumpToRs | main.cpp:377-414 | the same for a jump |
| Simulator.Tomasulo.Dispatch | main.cpp:419-486 | the shadow unit array and the in-flight list then hold `DispatchStep` of the previous state |

## Left out

- `main`, file input and output, and the log: they are I/O.
- The run loop `run` as a whole. The model gives each phase on its own: copy, countdown, issue, and the dispatch branch for one in-flight instruction. `sync` is modelled too, but `run` never calls it; its only call is to `copy`. `run`'s traversal of the in-flight list never moves `p` forward, so it only ever looks at the head, and once an instruction is issued it never ends. The model does not reproduce that non-terminating loop. `jumping`, `jump_pc` and `jump_val` are local variables of `run`; the model holds them as fields. The uninitialised `jump_val` and `jump_pc` start at 0.
- Completion and write-back of an executing instruction: the draft leaves them as an empty `TODO`. The `Record` table is never filled either.
- The linked list of in-flight instructions, its allocation and its memory: the list is a sequence, and appending an element stands for linking a new node at the tail.
- Commented-out code, which never runs.
- C `int` overflow in the parsers and in `pc`: integers are unbounded.
- Signed `char` arithmetic on characters outside ASCII: `HexDigit` subtracts on code points.
- Decoder.ParseLine: requires a line with a first comma, a second comma at least two characters later, and one more character after that. The C++ scans run unbounded otherwise and read past the string.
- Machine.IssueStep and Simulator.Tomasulo.Issue: require every operand an issue uses as an index into `reg_state`, `reg_state_` or `reg` to lie in 0..31. The C++ indexes them unchecked. For a jump this includes `op[0]`, its comparison value. So issue is left unmodelled for every jump whose comparison value is outside 0..31, because the C++ then writes `reg_state_[op[0]]` out of bounds.
- Machine.DispatchStep and Simulator.Tomasulo.Dispatch: require unit 6 to be idle before a load is dispatched. Otherwise the C++ load search reads `fu[7]`, past the 7-entry array.
- Machine.DispatchStep and Simulator.Tomasulo.Dispatch: also require `Inv` of the state, which keeps station and instruction indexes in range.
- Simulator.Tomasulo.Valid: records only that the arrays are distinct and have their fixed sizes. The invariant `Inv` is proved about the phase functions (the `KeepsInv` lemmas), not carried by the object.
